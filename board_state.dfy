/** The Board of board.go as an object: its rows of cells change in place when a word is
    placed (SetCell, placeWord); lookups, runs, validation and placement are loops over the
    current rows, each proved equal to the value-level definition it implements. */
module BoardState {
  import opened Wrappers
  import opened Letters
  import opened Grid
  import Cells = Grid
  import opened Validation

  // ----- SetCell on the board as a value -----

  /** The board with the letter written into the cell with that id; off the board nothing
      changes. Only the letter of one cell moves, so the board stays well formed. */
  function Put(g: Grid, id: int, letter: char): (h: Grid)
    requires WellFormed(g)
    ensures WellFormed(h) && |h| == |g|
    ensures !OnBoard(g, id) ==> h == g
  {
    if OnBoard(g, id) then
      RowColBounds(|g|, id);
      var r, c := Row(|g|, id), Col(|g|, id);
      var h := g[r := g[r][c := g[r][c].(ch := letter)]];
      assert forall r', c' :: 0 <= r' < |h| && 0 <= c' < |h| ==> h[r'][c'].index == g[r'][c'].index;
      assert forall r', c' :: 0 <= r' < |g| && 0 <= c' < |g| ==> IndexedAt(g, r', c') && IndexedAt(h, r', c');
      h
    else g
  }

  /** After Put the cell with that id holds the letter, keeping its id and bonus, and every
      other cell is as before. */
  lemma PutCellAt(g: Grid, id: int, letter: char, j: int)
    requires WellFormed(g) && OnBoard(g, j)
    ensures CellAt(Put(g, id, letter), j) == if j == id then CellAt(g, j).(ch := letter) else CellAt(g, j)
  {
    var n, h := |g|, Put(g, id, letter);
    CellFound(g, j);
    CellFound(h, j);
    if OnBoard(g, id) {
      RowColBounds(n, id);
      RowColBounds(n, j);
      CellFound(g, id);
    }
  }

  // ----- placeWord on the board as a value -----

  /** Two letters of one placement never go to the same id: the steps along a row or down a
      column grow with the letter's position. */
  lemma TargetsDistinct(g: Grid, p: Placement, i: nat, j: nat)
    requires WellFormed(g) && i < j && Target(g, p, i) != -1 && Target(g, p, j) != -1
    ensures Target(g, p, i) != Target(g, p, j)
  {
    if p.direction == Down {
      var n := |g|;
      VerticalStepMovesDown(n, p.cellId, i);
      VerticalStepMovesDown(n, p.cellId, j);
      MulMono(n, i + 1, j);
    }
  }

  /** The position of the first letter from i on whose step wraps to another row, or |word|:
      placeWord writes the letters before it and then stops. */
  function FirstWrap(g: Grid, p: Placement, word: seq<char>, i: nat): (k: nat)
    requires WellFormed(g) && i <= |word|
    ensures i <= k <= |word|
    ensures forall j :: i <= j < k ==> Target(g, p, j) != -1
    ensures k < |word| ==> Target(g, p, k) == -1
    decreases |word| - i
  {
    if i == |word| || Target(g, p, i) == -1 then i else FirstWrap(g, p, word, i + 1)
  }

  /** The board after SetCell has written the letters before k, in order. */
  function PlacedGrid(g: Grid, p: Placement, word: seq<char>, k: nat): (h: Grid)
    requires WellFormed(g) && k <= |word|
    ensures WellFormed(h) && |h| == |g|
  {
    if k == 0 then g else Put(PlacedGrid(g, p, word, k - 1), Target(g, p, k - 1), word[k - 1])
  }

  /** The cell SetCell returns for letter i: the target cell with the letter on it, or the zero
      cell off the board. */
  function PlacedCell(g: Grid, p: Placement, word: seq<char>, i: nat): Cell
    requires WellFormed(g) && i < |word|
  {
    var t := Target(g, p, i);
    if OnBoard(g, t) then CellAt(g, t).(ch := word[i]) else ZeroCell
  }

  function PlacedCells(g: Grid, p: Placement, word: seq<char>): seq<Cell>
    requires WellFormed(g)
  {
    seq(|word|, i requires 0 <= i < |word| => PlacedCell(g, p, word, i))
  }

  /** The letters from i on that SetCell reports as placed: those whose cell is empty. */
  function PlacedSpent(g: Grid, p: Placement, word: seq<char>, i: nat): seq<char>
    requires WellFormed(g) && i <= |word|
    decreases |word| - i
  {
    if i == |word| then []
    else
      var t := Target(g, p, i);
      (if OnBoard(g, t) && CellAt(g, t).Empty() then [word[i]] else []) + PlacedSpent(g, p, word, i + 1)
  }

  /** A cell no letter before k goes to is as it was. */
  lemma {:induction false} PlacedUntouched(g: Grid, p: Placement, word: seq<char>, k: nat, j: int)
    requires WellFormed(g) && k <= |word| && OnBoard(g, j)
    requires forall i :: 0 <= i < k ==> Target(g, p, i) != j
    ensures CellAt(PlacedGrid(g, p, word, k), j) == CellAt(g, j)
  {
    if k > 0 {
      PlacedUntouched(g, p, word, k - 1, j);
      PutCellAt(PlacedGrid(g, p, word, k - 1), Target(g, p, k - 1), word[k - 1], j);
    }
  }

  /** Once letter i is written, and as long as no step before k wraps, its cell holds it. */
  lemma {:induction false} PlacedAt(g: Grid, p: Placement, word: seq<char>, k: nat, i: nat)
    requires WellFormed(g) && i < k <= FirstWrap(g, p, word, 0) && OnBoard(g, Target(g, p, i))
    ensures CellAt(PlacedGrid(g, p, word, k), Target(g, p, i)) == CellAt(g, Target(g, p, i)).(ch := word[i])
  {
    var t := Target(g, p, i);
    PutCellAt(PlacedGrid(g, p, word, k - 1), Target(g, p, k - 1), word[k - 1], t);
    if k - 1 == i {
      forall j | 0 <= j < i
        ensures Target(g, p, j) != t
      {
        TargetsDistinct(g, p, j, i);
      }
      PlacedUntouched(g, p, word, i, t);
    } else {
      TargetsDistinct(g, p, i, k - 1);
      PlacedAt(g, p, word, k - 1, i);
    }
  }

  /** Letter i of a placement that does not wrap before it: SetCell on the board so far finds
      its cell as it was on the original board and returns the cell with the letter on it. */
  lemma PlaceStep(g: Grid, p: Placement, word: seq<char>, i: nat)
    requires WellFormed(g) && i < FirstWrap(g, p, word, 0)
    ensures var h, t := PlacedGrid(g, p, word, i), Target(g, p, i);
      && PlacedGrid(g, p, word, i + 1) == Put(h, t, word[i])
      && (OnBoard(h, t) && CellAt(h, t).Empty() <==> OnBoard(g, t) && CellAt(g, t).Empty())
      && (if OnBoard(h, t) then CellAt(Put(h, t, word[i]), t) else ZeroCell) == PlacedCell(g, p, word, i)
  {
    var t := Target(g, p, i);
    if OnBoard(g, t) {
      PlacedAt(g, p, word, i + 1, i);
      forall j | 0 <= j < i
        ensures Target(g, p, j) != t
      {
        TargetsDistinct(g, p, j, i);
      }
      PlacedUntouched(g, p, word, i, t);
    }
  }

  /** For letters that are all fine and never the empty character, SetCell reports as placed
      exactly the letters the validator counts as spent: an empty cell cannot hold the letter,
      and a cell that holds it is not empty. */
  lemma {:induction false} PlacedSpentAgrees(g: Grid, p: Placement, word: seq<char>, i: nat)
    requires WellFormed(g) && i <= |word| && AllOk(g, p, word, i)
    requires forall j :: i <= j < |word| ==> word[j] != EmptyChar
    ensures PlacedSpent(g, p, word, i) == SpentFrom(g, p, word, i)
    decreases |word| - i
  {
    if i < |word| {
      PlacedSpentAgrees(g, p, word, i + 1);
    }
  }

  /** placeWord after a successful isValidWordPlacement on the same board, with a word free of
      the empty character, never stops early and returns the same cells and spent letters. */
  lemma PlaceMatchesValidate(g: Grid, p: Placement, word: seq<char>, firstWord: bool)
    requires WellFormed(g) && Validate(g, p, word, firstWord).Ok?
    requires forall j :: 0 <= j < |word| ==> word[j] != EmptyChar
    ensures FirstWrap(g, p, word, 0) == |word|
    ensures PlacedCells(g, p, word) == Validate(g, p, word, firstWord).value.cells
    ensures PlacedSpent(g, p, word, 0) == Validate(g, p, word, firstWord).value.lettersSpent
  {
    ValidateResult(g, p, word, firstWord);
    ValidateIsAccepted(g, p, word, firstWord);
    ExpectedCellsAt(g, p, word);
    PlacedSpentAgrees(g, p, word, 0);
    assert Target(g, p, FirstWrap(g, p, word, 0)) == -1 ==> !Fits(g, p, FirstWrap(g, p, word, 0));
  }

  /** After a placeWord that does not stop early, each letter's cell holds its letter and every
      cell no letter goes to is unchanged. */
  lemma PlacedBoard(g: Grid, p: Placement, word: seq<char>, i: nat, j: int)
    requires WellFormed(g) && FirstWrap(g, p, word, 0) == |word| && i < |word| && OnBoard(g, j)
    ensures OnBoard(g, Target(g, p, i)) ==>
      CellAt(PlacedGrid(g, p, word, |word|), Target(g, p, i)).ch == word[i]
    ensures (forall k :: 0 <= k < |word| ==> Target(g, p, k) != j) ==>
      CellAt(PlacedGrid(g, p, word, |word|), j) == CellAt(g, j)
  {
    if OnBoard(g, Target(g, p, i)) {
      PlacedAt(g, p, word, |word|, i);
    }
    if forall k :: 0 <= k < |word| ==> Target(g, p, k) != j {
      PlacedUntouched(g, p, word, |word|, j);
    }
  }

  /** A board of N x N cells. */
  class Board {
    var grid: Grid

    predicate Valid()
      reads this
    {
      WellFormed(grid)
    }

    /** NewBoard: rows of empty cells numbered from 1, row by row, each with the bonus the
        standard layout gives its id. */
    constructor (size: nat)
      ensures grid == NewGrid(size)
      ensures size > 0 ==> Valid()
    {
      var rows: seq<seq<Cell>> := [];
      var index := 1;
      var rowNum := 0;
      while rowNum < size
        invariant 0 <= rowNum <= size && |rows| == rowNum
        invariant index == rowNum * size + 1
        invariant forall r :: 0 <= r < rowNum ==> rows[r] == NewGrid(size)[r]
      {
        var row: seq<Cell> := [];
        var colNum := 0;
        while colNum < size
          invariant 0 <= colNum <= size && |row| == colNum
          invariant index == rowNum * size + colNum + 1
          invariant forall c :: 0 <= c < colNum ==> row[c] == NewGrid(size)[rowNum][c]
        {
          row := row + [Cell(index, EmptyChar, BonusAt(index))];
          index := index + 1;
          colNum := colNum + 1;
        }
        assert (rowNum + 1) * size == rowNum * size + size;
        rows := rows + [row];
        rowNum := rowNum + 1;
      }
      grid := rows;
      if size > 0 {
        NewGridWellFormed(size);
      }
    }

    /** GetCell: scans every row for the cell carrying the id, then applies the occupancy
        filter. */
    method GetCell(id: int, state: CellState) returns (r: Option<Cell>)
      requires Valid()
      ensures r == Cells.GetCell(grid, id, state)
    {
      if id < 1 {
        return None;
      }
      var n := |grid|;
      var rowIdx := 0;
      while rowIdx < n
        invariant 0 <= rowIdx <= n
        invariant forall r', c' :: 0 <= r' < rowIdx && 0 <= c' < n ==> grid[r'][c'].index != id
      {
        var colIdx := 0;
        while colIdx < n
          invariant 0 <= colIdx <= n
          invariant forall c' :: 0 <= c' < colIdx ==> grid[rowIdx][c'].index != id
        {
          var cell := grid[rowIdx][colIdx];
          if cell.index == id {
            CellAtIsUnique(grid, rowIdx, colIdx);
            if state == CellEmpty && !cell.Empty() {
              return None;
            }
            if state == CellFull && cell.Empty() {
              return None;
            }
            return Some(cell);
          }
          colIdx := colIdx + 1;
        }
        rowIdx := rowIdx + 1;
      }
      CellFound(grid, id);
      return None;
    }

    /** nonEmptyNeighbouringCells: which of the cells at id - 1, id + 1, id - N and id + N are
        occupied. */
    method NonEmptyNeighbouringCells(id: int) returns (o: Overlap)
      requires Valid()
      ensures o == Neighbours(grid, id)
    {
      var n := |grid|;
      var left := GetCell(id - 1, CellFull);
      var right := GetCell(id + 1, CellFull);
      var above := GetCell(id - n, CellFull);
      var below := GetCell(id + n, CellFull);
      o := Overlap(left.Some?, right.Some?, above.Some?, below.Some?);
    }

    /** NeighboringWord: walks away from id one step at a time, collecting occupied cells
        until a step leaves the row or lands on an empty or missing cell. */
    method NeighboringWord(id: int, direction: Direction) returns (cells: seq<Cell>)
      requires Valid()
      ensures cells == Run(grid, id, direction)
    {
      var n := |grid|;
      cells := [];
      var offset := 0;
      while true
        invariant offset == if direction == L || direction == U then -|cells| else |cells|
        invariant cells + RunFrom(grid, id, direction, |cells| + 1) == Run(grid, id, direction)
        decreases (if direction == L then id else n * n - id) - |cells|
      {
        if direction == L || direction == U {
          offset := offset - 1;
        } else {
          offset := offset + 1;
        }
        var nextCellId;
        if direction == U || direction == D {
          nextCellId := VerticalStep(n, id, offset);
        } else {
          nextCellId := HorizontalStep(n, id, offset);
        }
        assert nextCellId == StepFrom(n, id, direction, |cells| + 1);
        if nextCellId < 0 {
          assert cells == Run(grid, id, direction);
          return;
        }
        var nextCell := GetCell(nextCellId, CellFull);
        if nextCell.None? {
          assert cells == Run(grid, id, direction);
          return;
        }
        StepBound(n, id, direction, |cells| + 1);
        ghost var rest := RunFrom(grid, id, direction, |cells| + 2);
        assert RunFrom(grid, id, direction, |cells| + 1) == [nextCell.value] + rest;
        SeqAssoc(cells, [nextCell.value], rest);
        cells := cells + [nextCell.value];
      }
    }

    /** SetCell: counts the cells row by row and writes the letter into the one whose position
        is the id; placed says whether that cell was empty. An id off the board changes
        nothing and returns the zero cell. */
    method SetCell(id: int, letter: char) returns (cell: Cell, placed: bool)
      requires Valid()
      modifies this
      ensures Valid()
      ensures grid == Put(old(grid), id, letter)
      ensures placed <==> OnBoard(old(grid), id) && CellAt(old(grid), id).Empty()
      ensures cell == if OnBoard(grid, id) then CellAt(grid, id) else ZeroCell
    {
      ghost var g := grid;
      var n := |grid|;
      var curID := 0;
      placed := false;
      cell := ZeroCell;
      var rowIdx := 0;
      while rowIdx < n
        invariant 0 <= rowIdx <= n && curID == rowIdx * n
        invariant SetSoFar(g, id, letter, curID, grid, placed, cell)
      {
        var colIdx := 0;
        while colIdx < n
          invariant 0 <= colIdx <= n && curID == rowIdx * n + colIdx
          invariant SetSoFar(g, id, letter, curID, grid, placed, cell)
        {
          curID := curID + 1;
          if curID == id {
            SetHere(g, id, rowIdx, colIdx);
            if grid[rowIdx][colIdx].Empty() {
              placed := true;
            }
            grid := grid[rowIdx := grid[rowIdx][colIdx := grid[rowIdx][colIdx].(ch := letter)]];
            cell := grid[rowIdx][colIdx];
            PutCellAt(g, id, letter, id);
          }
          colIdx := colIdx + 1;
        }
        assert (rowIdx + 1) * n == rowIdx * n + n;
        rowIdx := rowIdx + 1;
      }
    }
    /** The horizontal chain a new letter of a down word joins (touchingX). */
    method ChainAcross(p: Placement, i: int, thisCell: Cell, nb: Overlap, cells: seq<Cell>)
      returns (touchingX: seq<Cell>)
      requires Valid()
      ensures touchingX == CrossX(grid, p, i, thisCell, nb, cells)
    {
      ghost var left := if nb.l then Reversed(Run(grid, thisCell.index, L)) else [];
      ghost var middle := if nb.l || nb.r then (if i > 0 && p.direction == Across then cells else [thisCell]) else [];
      touchingX := [];
      if nb.l {
        var lhs := NeighboringWord(thisCell.index, L);
        touchingX := touchingX + Reversed(lhs);
      }
      assert touchingX == left;
      if nb.l || nb.r {
        if i > 0 && p.direction == Across {
          touchingX := touchingX + cells;
        } else {
          touchingX := touchingX + [thisCell];
        }
      }
      assert touchingX == left + middle;
      if nb.r {
        var rhs := NeighboringWord(thisCell.index, R);
        touchingX := touchingX + rhs;
      }
    }

    /** The vertical chain a new letter of an across word joins (touchingY), with the board's
        own target cell ahead of the new one when the cell above is occupied. */
    method ChainDown(cell: Cell, thisCell: Cell, nb: Overlap) returns (touchingY: seq<Cell>)
      requires Valid()
      ensures touchingY == CrossY(grid, cell, thisCell, nb)
    {
      touchingY := [];
      if nb.a {
        var lhs := NeighboringWord(cell.index, U);
        touchingY := Reversed(lhs) + [cell];
      }
      if nb.a || nb.b {
        touchingY := touchingY + [thisCell];
      }
      if nb.b {
        var below := NeighboringWord(cell.index, D);
        touchingY := touchingY + below;
      }
    }

    /** One letter of isValidWordPlacement's loop: the checks on its cell and what it adds to
        the accumulators. */
    method CheckLetter(p: Placement, word: seq<char>, i: nat, s: Scan) returns (r: Result<Scan, PlacementError>)
      requires Valid() && i < |word|
      ensures r == ScanLetter(grid, p, word, i, s)
    {
      var letter := word[i];
      var overlaps, cellsCovered := s.overlaps, s.covered;
      var cells, lettersSpent, touching := s.result.cells, s.result.lettersSpent, s.result.touching;
      var isOverlapping := false;
      var cellIndex := CellIndex(|grid|, p, i);
      if cellIndex == -1 {
        return Err(InvalidCellRange);
      }
      cellsCovered := cellsCovered + [cellIndex];
      var found := GetCell(cellIndex, CellAny);
      if found.None? {
        return Err(DoesNotFit);
      }
      var cell := found.value;
      if !cell.Empty() && cell.ch != letter {
        return Err(InvalidOverlap);
      }
      if cell.ch == letter {
        overlaps := overlaps + 1;
        isOverlapping := true;
      } else {
        lettersSpent := lettersSpent + [letter];
      }
      var thisCell := Cell(cell.index, letter, cell.bonus);
      cells := cells + [thisCell];
      var nb := NonEmptyNeighbouringCells(cellIndex);
      if p.direction == Down && i == |word| - 1 && nb.b {
        return Err(TooCloseBelow);
      }
      if p.direction == Down && i == 0 && nb.a {
        return Err(TooCloseAbove);
      }
      if p.direction == Across && i == |word| - 1 && nb.r {
        return Err(TooCloseRight);
      }
      if p.direction == Across && i == 0 && nb.l {
        return Err(TooCloseLeft);
      }
      ghost var x, y := CrossX(grid, p, i, thisCell, nb, cells), CrossY(grid, cell, thisCell, nb);
      ghost var chainX := if p.direction != Across && |x| > 0 then [x] else [];
      ghost var chainY := if p.direction != Down && |y| > 0 then [y] else [];
      assert Chains(grid, p, i, cell, thisCell, cells) == chainX + chainY;
      if !isOverlapping {
        if p.direction != Across {
          var touchingX := ChainAcross(p, i, thisCell, nb, cells);
          if |touchingX| > 0 {
            touching := touching + [touchingX];
          }
        }
        assert touching == s.result.touching + chainX;
        if p.direction != Down {
          var touchingY := ChainDown(cell, thisCell, nb);
          if |touchingY| > 0 {
            touching := touching + [touchingY];
          }
        }
        SeqAssoc(s.result.touching, chainX, chainY);
        assert touching == s.result.touching + (chainX + chainY);
      }
      return Ok(Scan(overlaps, cellsCovered, PlacementResult(cells, lettersSpent, touching)));
    }

    /** The first-word rule's loop: whether the centre id is among the covered ids. */
    method CoversCentre(cellsCovered: seq<int>) returns (centerCellCovered: bool)
      requires Valid()
      ensures centerCellCovered <==> CenterCell(|grid|) in cellsCovered
    {
      var centerCell := CenterCell(|grid|);
      centerCellCovered := false;
      var k := 0;
      while k < |cellsCovered|
        invariant 0 <= k <= |cellsCovered|
        invariant centerCellCovered <==> centerCell in cellsCovered[..k]
      {
        if cellsCovered[k] == centerCell {
          centerCellCovered := true;
        }
        assert cellsCovered[..k + 1] == cellsCovered[..k] + [cellsCovered[k]];
        k := k + 1;
      }
      assert cellsCovered[..k] == cellsCovered;
    }

    /** isValidWordPlacement: checks the letters one by one, stopping at the first bad one,
        then the whole-word rules; the board is only read. */
    method IsValidWordPlacement(p: Placement, word: seq<char>, firstWord: bool)
      returns (r: Result<PlacementResult, PlacementError>)
      requires Valid()
      ensures r == Validate(grid, p, word, firstWord)
    {
      var s := NoScan;
      var i := 0;
      while i < |word|
        invariant 0 <= i <= |word|
        invariant ScanFrom(grid, p, word, 0, NoScan) == ScanFrom(grid, p, word, i, s)
      {
        var step := CheckLetter(p, word, i, s);
        if step.Err? {
          return Err(step.error);
        }
        s := step.value;
        i := i + 1;
      }
      if s.overlaps == |word| {
        return Err(CompleteOverlap);
      }
      if !firstWord && s.overlaps == 0 && |s.result.touching| == 0 {
        return Err(NotConnected);
      }
      if firstWord {
        var centerCellCovered := CoversCentre(s.covered);
        if !centerCellCovered {
          return Err(MissesCentre);
        }
      }
      return Ok(s.result);
    }

    /** placeWord: writes the letters one by one with SetCell, collecting the cells it
        returns and the letters it reports placed; a step that wraps to another row stops the
        loop with an error, leaving the letters before it on the board. */
    method PlaceWord(p: Placement, word: seq<char>) returns (r: Result<PlacementResult, PlacementError>)
      requires Valid()
      modifies this
      ensures Valid()
      ensures grid == PlacedGrid(old(grid), p, word, FirstWrap(old(grid), p, word, 0))
      ensures r == if FirstWrap(old(grid), p, word, 0) < |word| then Err(InvalidCellRange)
        else Ok(PlacementResult(PlacedCells(old(grid), p, word), PlacedSpent(old(grid), p, word, 0), []))
    {
      ghost var g := grid;
      var n := |grid|;
      var cells, lettersSpent := [], [];
      var i := 0;
      while i < |word|
        invariant 0 <= i <= |word| && |g| == n
        invariant FirstWrap(g, p, word, 0) == FirstWrap(g, p, word, i)
        invariant grid == PlacedGrid(g, p, word, i)
        invariant cells == PlacedCells(g, p, word)[..i]
        invariant lettersSpent + PlacedSpent(g, p, word, i) == PlacedSpent(g, p, word, 0)
      {
        var letter := word[i];
        var cellIndex := CellIndex(n, p, i);
        if cellIndex == -1 {
          return Err(InvalidCellRange);
        }
        PlaceStep(g, p, word, i);
        var cell, placed := SetCell(cellIndex, letter);
        assert cell == PlacedCell(g, p, word, i);
        SeqSnoc(PlacedCells(g, p, word), i);
        cells := cells + [cell];
        ghost var own := if placed then [letter] else [];
        SeqAssoc(lettersSpent, own, PlacedSpent(g, p, word, i + 1));
        if placed {
          lettersSpent := lettersSpent + [letter];
        } else {
          assert lettersSpent + own == lettersSpent;
        }
        i := i + 1;
      }
      assert PlacedCells(g, p, word)[..i] == PlacedCells(g, p, word);
      assert lettersSpent == PlacedSpent(g, p, word, 0);
      return Ok(PlacementResult(cells, lettersSpent, []));
    }
  }

  /** What SetCell's loop holds once it has counted `counted` cells: before reaching the id
      the board and outputs are untouched; after, the letter is written and the outputs say
      what the id's cell held and holds. */
  predicate SetSoFar(g: Grid, id: int, letter: char, counted: int, h: Grid, placed: bool, cell: Cell)
    requires WellFormed(g)
  {
    if 1 <= id <= counted then
      && OnBoard(g, id) && h == Put(g, id, letter)
      && (placed <==> CellAt(g, id).Empty()) && cell == CellAt(h, id)
    else h == g && !placed && cell == ZeroCell
  }

  /** The cell counted id-th, in row r and column c, is the cell with that id. */
  lemma SetHere(g: Grid, id: int, r: int, c: int)
    requires WellFormed(g) && 0 <= r < |g| && 0 <= c < |g| && id == r * |g| + c + 1
    ensures OnBoard(g, id) && Row(|g|, id) == r && Col(|g|, id) == c
    ensures g[r][c] == CellAt(g, id)
  {
    CellAtIsUnique(g, r, c);
    assert IndexedAt(g, r, c);
    DivModUnique(id - 1, |g|, r, c);
  }
}
