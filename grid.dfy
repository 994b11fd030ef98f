/** The board of board.go as a value: cells numbered row-major from 1, cell lookup by id,
    id stepping along a row or a column, occupied neighbours and the runs of occupied cells
    that a new letter touches. The board object that changes in place is in board_state.dfy. */
module Grid {
  import opened Wrappers
  import opened Letters

  /** The character of an empty cell (the zero rune). */
  const EmptyChar: char := 0 as char

  /** Occupancy filter of a lookup (CellState). */
  datatype CellState = CellAny | CellFull | CellEmpty

  /** The axis of a placement: D (down, vertical) or A (across, horizontal). */
  datatype Orientation = Down | Across

  /** The direction of a walk from a cell. */
  datatype Direction = U | D | L | R

  datatype Cell = Cell(index: int, ch: char, bonus: Bonus) {
    predicate Empty() { ch == EmptyChar }
  }

  /** The zero Cell value of the source (no index, no letter, no bonus). */
  const ZeroCell: Cell := Cell(0, EmptyChar, NoBonus)

  /** Which of the four axis-aligned neighbours of a cell are occupied (Overlap). */
  datatype Overlap = Overlap(l: bool, r: bool, a: bool, b: bool)

  /** Where the first letter of a word goes and the axis the word runs along. */
  datatype Placement = Placement(cellId: int, direction: Orientation)

  /** The outcome of a placement: the cells the word covers, the rack letters it spends, and the
      runs of cells it touches. */
  datatype PlacementResult = PlacementResult(cells: seq<Cell>, lettersSpent: seq<char>, touching: seq<seq<Cell>>)

  /** Rows of cells; the board is |g| x |g|. */
  type Grid = seq<seq<Cell>>

  /** A square, non-empty grid whose cell in row r, column c has id r * N + c + 1. */
  predicate WellFormed(g: Grid) {
    && |g| > 0
    && (forall r :: 0 <= r < |g| ==> |g[r]| == |g|)
    && (forall r, c :: 0 <= r < |g| && 0 <= c < |g| ==> IndexedAt(g, r, c))
  }

  /** The cell in row r, column c carries id r * N + c + 1. */
  predicate IndexedAt(g: Grid, r: int, c: int)
    requires 0 <= r < |g| && 0 <= c < |g[r]|
  {
    g[r][c].index == r * |g| + c + 1
  }

  /** The board a game starts with: every cell empty, its bonus taken from the standard layout. */
  function NewGrid(size: nat): Grid {
    seq(size, r => seq(size, c => Cell(r * size + c + 1, EmptyChar, BonusAt(r * size + c + 1))))
  }

  lemma NewGridWellFormed(size: nat)
    requires size > 0
    ensures WellFormed(NewGrid(size))
    ensures forall r, c :: 0 <= r < size && 0 <= c < size ==>
      NewGrid(size)[r][c].Empty() && NewGrid(size)[r][c].bonus == BonusAt(r * size + c + 1)
  {
  }

  // ----- integer geometry -----

  /** ceil(x / n) for a positive n, as the source computes it with floating point. */
  function CeilDiv(x: int, n: int): int
    requires n > 0
  {
    -((-x) / n)
  }

  lemma CeilDivBounds(x: int, n: int)
    requires n > 0
    ensures n * CeilDiv(x, n) - n < x <= n * CeilDiv(x, n)
  {
  }

  /** For a positive id, ceil(id / n) is the 1-based row of the id. */
  lemma CeilDivRow(id: int, n: int)
    requires n > 0 && id >= 1
    ensures CeilDiv(id, n) == (id - 1) / n + 1
  {
    var q := (id - 1) / n;
    CeilDivBounds(id, n);
    assert n * q <= id - 1 < n * q + n;
    var c := CeilDiv(id, n);
    if c > q + 1 {
      assert n * c >= n * (q + 2) by { MulMono(n, q + 2, c); }
      assert false;
    } else if c < q + 1 {
      assert n * c <= n * q by { MulMono(n, c, q); }
      assert false;
    }
  }

  lemma MulMono(n: int, a: int, b: int)
    requires n > 0 && a <= b
    ensures n * a <= n * b
  {
  }

  /** getNextVerticalCellId: the id `offset` rows away, as written: the product is negated
      when the offset is negative, so a negative offset also moves down. */
  function VerticalStep(n: int, id: int, offset: int): int {
    var verticalOffset := n * offset;
    id + (if offset < 0 then 0 - verticalOffset else verticalOffset)
  }

  /** getNextHorizontalCellId: id + offset when it is on the same row as id, -1 otherwise. */
  function HorizontalStep(n: int, id: int, offset: int): int
    requires n > 0
  {
    var cellIndex := id + offset;
    if CeilDiv(cellIndex, n) != CeilDiv(id, n) then -1 else cellIndex
  }

  /** getCellIndex: the id of the letter at position offset of a placement. */
  function CellIndex(n: int, p: Placement, offset: int): int
    requires n > 0
  {
    if p.direction == Down then VerticalStep(n, p.cellId, offset) else HorizontalStep(n, p.cellId, offset)
  }

  /** getCenterCellIdx: ceil(N / 2) + N * floor(N / 2). */
  function CenterCell(n: int): int
    requires n > 0
  {
    (n + 1) / 2 + n * (n / 2)
  }

  // ----- cell lookup -----

  predicate OnBoard(g: Grid, id: int) {
    1 <= id <= |g| * |g|
  }

  lemma RowColBounds(n: int, id: int)
    requires n > 0 && 1 <= id <= n * n
    ensures 0 <= (id - 1) / n < n && 0 <= (id - 1) % n < n
    ensures id == ((id - 1) / n) * n + (id - 1) % n + 1
  {
    var q := (id - 1) / n;
    if q >= n {
      MulMono(n, n, q);
    }
  }

  /** The cell `rest` places on from the start of row r, scanning the rows in order as
      GetCell's loops do; nothing past the last row. */
  function CellFrom(g: Grid, r: nat, rest: int): Option<Cell>
    requires WellFormed(g)
    decreases |g| - r
  {
    if r >= |g| || rest < 1 then None
    else if rest <= |g| then Some(g[r][rest - 1])
    else CellFrom(g, r + 1, rest - |g|)
  }

  lemma DivStep(x: int, n: int)
    requires n > 0 && x >= n
    ensures x / n == (x - n) / n + 1 && x % n == (x - n) % n
  {
    DivModUnique(x, n, (x - n) / n + 1, (x - n) % n);
  }

  /** The scan from row r finds the cell (rest - 1) / N rows further down, in column
      (rest - 1) % N. */
  lemma {:induction false} CellFromRowCol(g: Grid, r: nat, rest: int)
    requires WellFormed(g) && r <= |g| && rest >= 1
    ensures CellFrom(g, r, rest) ==
      if r + (rest - 1) / |g| < |g| then Some(g[r + (rest - 1) / |g|][(rest - 1) % |g|]) else None
    decreases |g| - r
  {
    var n := |g|;
    if rest <= n {
      DivModUnique(rest - 1, n, 0, rest - 1);
    } else {
      DivStep(rest - 1, n);
      if r < n {
        CellFromRowCol(g, r + 1, rest - n);
      }
    }
  }

  /** The scan finds a cell exactly for the ids of the board: the one in row Row(id), column
      Col(id), which carries that id. */
  lemma CellFound(g: Grid, id: int)
    requires WellFormed(g)
    ensures CellFrom(g, 0, id).Some? <==> OnBoard(g, id)
    ensures OnBoard(g, id) ==>
      0 <= Row(|g|, id) < |g| && 0 <= Col(|g|, id) < |g| &&
      CellFrom(g, 0, id).value == g[Row(|g|, id)][Col(|g|, id)] &&
      CellFrom(g, 0, id).value.index == id
  {
    if id >= 1 {
      CellFromRowCol(g, 0, id);
      if OnBoard(g, id) {
        RowColBounds(|g|, id);
        assert IndexedAt(g, (id - 1) / |g|, (id - 1) % |g|);
      } else {
        OffBoardRow(|g|, id);
      }
    }
  }

  /** An id past the last cell lies below the last row. */
  lemma OffBoardRow(n: int, id: int)
    requires n > 0 && id > n * n
    ensures (id - 1) / n >= n
  {
    var q := (id - 1) / n;
    if q < n {
      MulMono(n, q, n - 1);
      assert false;
    }
  }

  /** The cell with the given id. */
  function CellAt(g: Grid, id: int): (c: Cell)
    requires WellFormed(g) && OnBoard(g, id)
    ensures c.index == id
  {
    CellFound(g, id);
    CellFrom(g, 0, id).value
  }

  /** The id written in row r, column c determines r and c, so the cell with a given id is the
      only one carrying that id: looking it up by position finds what a scan of every cell for
      that id finds. */
  lemma CellAtIsUnique(g: Grid, r: int, c: int)
    requires WellFormed(g) && 0 <= r < |g| && 0 <= c < |g|
    ensures OnBoard(g, g[r][c].index)
    ensures CellAt(g, g[r][c].index) == g[r][c]
  {
    assert IndexedAt(g, r, c);
    RowColId(|g|, r, c);
    CellFound(g, g[r][c].index);
  }

  /** Row r, column c of an N x N board has an id on the board, and that id's row and column
      are r and c. */
  lemma RowColId(n: int, r: int, c: int)
    requires 0 <= r < n && 0 <= c < n
    ensures 1 <= r * n + c + 1 <= n * n
    ensures Row(n, r * n + c + 1) == r && Col(n, r * n + c + 1) == c
  {
    MulMono(n, r, n - 1);
    assert n * (n - 1) == n * n - n;
    DivModUnique(r * n + c, n, r, c);
  }

  lemma DivModUnique(x: int, n: int, q: int, m: int)
    requires n > 0 && 0 <= m < n && x == q * n + m
    ensures x / n == q && x % n == m
  {
    var q', m' := x / n, x % n;
    assert x == q' * n + m';
    if q' > q {
      MulMono(n, q + 1, q');
      assert false;
    } else if q' < q {
      MulMono(n, q' + 1, q);
      assert false;
    }
  }

  /** A cell of the grid is any cell some row and column hold. */
  predicate InGrid(g: Grid, c: Cell) {
    exists r, col :: 0 <= r < |g| && 0 <= col < |g[r]| && g[r][col] == c
  }

  lemma CellAtInGrid(g: Grid, id: int)
    requires WellFormed(g) && OnBoard(g, id)
    ensures InGrid(g, CellAt(g, id))
  {
    CellFound(g, id);
  }

  predicate Matches(c: Cell, state: CellState) {
    match state
    case CellAny => true
    case CellFull => !c.Empty()
    case CellEmpty => c.Empty()
  }

  /** GetCell: the cell with that id when it exists and passes the occupancy filter. */
  function GetCell(g: Grid, id: int, state: CellState): (r: Option<Cell>)
    requires WellFormed(g)
    ensures r.Some? <==> OnBoard(g, id) && Matches(CellAt(g, id), state)
    ensures r.Some? ==> r.value == CellAt(g, id) && r.value.index == id && InGrid(g, r.value)
  {
    CellFound(g, id);
    if id < 1 then None
    else match CellFrom(g, 0, id)
      case None => None
      case Some(cell) =>
        CellAtInGrid(g, id);
        if state == CellEmpty && !cell.Empty() then None
        else if state == CellFull && cell.Empty() then None
        else Some(cell)
  }

  /** The cell with that id, or the zero cell off the board. */
  function Lookup(g: Grid, id: int): Cell
    requires WellFormed(g)
  {
    if OnBoard(g, id) then CellAt(g, id) else ZeroCell
  }

  /** nonEmptyNeighbouringCells: the occupied cells at id - 1, id + 1, id - N and id + N. */
  function Neighbours(g: Grid, id: int): Overlap
    requires WellFormed(g)
  {
    var n := |g|;
    Overlap(
      GetCell(g, id - 1, CellFull).Some?,
      GetCell(g, id + 1, CellFull).Some?,
      GetCell(g, id - n, CellFull).Some?,
      GetCell(g, id + n, CellFull).Some?)
  }

  /** Neighbours reads id - 1 without checking rows: for a cell in the first column the "left"
      flag reports the last cell of the row above. */
  lemma LeftNeighbourWrapsRows(g: Grid, id: int)
    requires WellFormed(g) && OnBoard(g, id) && id > 1 && Col(|g|, id) == 0
    ensures Row(|g|, id - 1) == Row(|g|, id) - 1 && Col(|g|, id - 1) == |g| - 1
    ensures Neighbours(g, id).l <==> !CellAt(g, id - 1).Empty()
  {
    var n, q := |g|, Row(|g|, id);
    RowColBounds(n, id);
    assert id - 2 == (q - 1) * n + (n - 1);
    DivModUnique(id - 2, n, q - 1, n - 1);
  }

  /** Likewise id + 1: for a cell in the last column the "right" flag reports the first cell of
      the row below. */
  lemma RightNeighbourWrapsRows(g: Grid, id: int)
    requires WellFormed(g) && OnBoard(g, id) && id < |g| * |g| && Col(|g|, id) == |g| - 1
    ensures Row(|g|, id + 1) == Row(|g|, id) + 1 && Col(|g|, id + 1) == 0
    ensures Neighbours(g, id).r <==> !CellAt(g, id + 1).Empty()
  {
    var n, q := |g|, Row(|g|, id);
    RowColBounds(n, id);
    assert id == (q + 1) * n + 0;
    DivModUnique(id, n, q + 1, 0);
  }

  /** The 0-based row and column of a positive id. */
  function Row(n: int, id: int): int
    requires n > 0
  {
    (id - 1) / n
  }

  function Col(n: int, id: int): int
    requires n > 0
  {
    (id - 1) % n
  }

  /** On a board of odd size the centre id is the middle row's middle cell; on the 15 x 15
      board it is 113. */
  lemma CentreOfBoard(n: int)
    requires n > 0 && n % 2 == 1
    ensures 1 <= CenterCell(n) <= n * n
    ensures Row(n, CenterCell(n)) == n / 2 && Col(n, CenterCell(n)) == n / 2
    ensures CenterCell(15) == 113
  {
    var h := n / 2;
    assert (n + 1) / 2 == h + 1;
    assert CenterCell(n) == h * n + h + 1;
    RowColId(n, h, h);
  }

  /** getNextHorizontalCellId accepts a step exactly when it stays on the row it starts from. */
  lemma HorizontalStepRows(n: int, id: int, k: int)
    requires n > 0 && id >= 1 && id + k >= 1
    ensures HorizontalStep(n, id, k) == (if Row(n, id + k) == Row(n, id) then id + k else -1)
  {
    CeilDivRow(id, n);
    CeilDivRow(id + k, n);
  }

  /** The cases the source's tests exercise on a 15x15 board, one lemma each. */
  lemma HorizontalStepRight() ensures HorizontalStep(15, 1, 1) == 2 {}
  lemma HorizontalStepLeft() ensures HorizontalStep(15, 2, -1) == 1 {}
  lemma HorizontalStepPastRowEnd() ensures HorizontalStep(15, 15, 1) == -1 {}
  lemma HorizontalStepBeforeRowStart() ensures HorizontalStep(15, 31, -1) == -1 {}

  /** getNextVerticalCellId moves |offset| rows DOWN whatever the sign of offset, so it never
      moves up and never reports -1: (1, 1) gives 16, and (113, -2) gives 143 rather than the
      83 one row-pair up. */
  lemma VerticalStepMovesDown(n: int, id: int, offset: int)
    requires n > 0
    ensures VerticalStep(n, id, offset) == id + n * (if offset < 0 then -offset else offset)
    ensures id >= 1 ==> VerticalStep(n, id, offset) >= id
    ensures VerticalStep(15, 1, 1) == 16 && VerticalStep(15, 113, -2) == 143
  {
    if offset < 0 {
      assert n * offset == -(n * -offset);
    }
    MulMono(n, 0, if offset < 0 then -offset else offset);
  }

  // ----- NeighboringWord -----

  /** The id NeighboringWord inspects on its k-th step from id: the offset is -k towards L and
      U and k towards R and D, taken along a column for U and D and along a row for L and R. */
  function StepFrom(n: int, id: int, dir: Direction, k: int): int
    requires n > 0
  {
    var offset := if dir == L || dir == U then -k else k;
    if dir == U || dir == D then VerticalStep(n, id, offset) else HorizontalStep(n, id, offset)
  }

  /** A step that lands on the board k steps out leaves room for k steps. */
  lemma StepBound(n: int, id: int, dir: Direction, k: int)
    requires n > 0 && k >= 0 && 1 <= StepFrom(n, id, dir, k) <= n * n
    ensures k <= (if dir == L then id else n * n - id)
  {
    if dir == U || dir == D {
      VerticalStepMovesDown(n, id, if dir == U then -k else k);
      if k >= 1 {
        MulMono(n, 1, k);
      }
    }
  }

  /** The occupied cells met from step k on, up to the first empty or off-board one. */
  function RunFrom(g: Grid, id: int, dir: Direction, k: nat): seq<Cell>
    requires WellFormed(g)
    decreases (if dir == L then id else |g| * |g| - id) - k
  {
    var next := StepFrom(|g|, id, dir, k);
    if next < 0 then []
    else match GetCell(g, next, CellFull)
      case None => []
      case Some(c) =>
        StepBound(|g|, id, dir, k);
        [c] + RunFrom(g, id, dir, k + 1)
  }

  /** NeighboringWord: the run of occupied cells next to id in direction dir, nearest first. */
  function Run(g: Grid, id: int, dir: Direction): seq<Cell>
    requires WellFormed(g)
  {
    RunFrom(g, id, dir, 1)
  }

  /** The j-th cell of a run from step k is the occupied cell k + j steps out. */
  lemma {:induction false} RunFromAt(g: Grid, id: int, dir: Direction, k: nat, j: nat)
    requires WellFormed(g) && j < |RunFrom(g, id, dir, k)|
    ensures OnBoard(g, StepFrom(|g|, id, dir, k + j))
    ensures RunFrom(g, id, dir, k)[j] == CellAt(g, StepFrom(|g|, id, dir, k + j))
    ensures !RunFrom(g, id, dir, k)[j].Empty()
    decreases j
  {
    if j > 0 {
      RunFromAt(g, id, dir, k + 1, j - 1);
      assert k + 1 + (j - 1) == k + j;
    }
  }

  /** The step just past a run from step k is rejected, off the board or empty. */
  lemma {:induction false} RunFromEnd(g: Grid, id: int, dir: Direction, k: nat)
    requires WellFormed(g)
    ensures var next := StepFrom(|g|, id, dir, k + |RunFrom(g, id, dir, k)|);
      next < 0 || GetCell(g, next, CellFull).None?
    decreases (if dir == L then id else |g| * |g| - id) - k
  {
    var next := StepFrom(|g|, id, dir, k);
    if next >= 0 && GetCell(g, next, CellFull).Some? {
      StepBound(|g|, id, dir, k);
      RunFromEnd(g, id, dir, k + 1);
      assert |RunFrom(g, id, dir, k)| == 1 + |RunFrom(g, id, dir, k + 1)|;
    }
  }

  /** NeighboringWord returns exactly the cells GetCell finds occupied j + 1 steps from id, and
      stops at the first step that is rejected, off the board or empty. */
  lemma RunCells(g: Grid, id: int, dir: Direction)
    requires WellFormed(g)
    ensures forall j :: 0 <= j < |Run(g, id, dir)| ==>
      GetCell(g, StepFrom(|g|, id, dir, j + 1), CellFull) == Some(Run(g, id, dir)[j])
    ensures var next := StepFrom(|g|, id, dir, |Run(g, id, dir)| + 1);
      next < 0 || GetCell(g, next, CellFull).None?
  {
    forall j | 0 <= j < |Run(g, id, dir)|
      ensures GetCell(g, StepFrom(|g|, id, dir, j + 1), CellFull) == Some(Run(g, id, dir)[j])
    {
      RunFromAt(g, id, dir, 1, j);
      assert 1 + j == j + 1;
    }
    RunFromEnd(g, id, dir, 1);
    assert 1 + |Run(g, id, dir)| == |Run(g, id, dir)| + 1;
  }

  /** Two ids with the same row ceiling are less than n apart. */
  lemma SameCeilClose(n: int, a: int, b: int)
    requires n > 0 && CeilDiv(a, n) == CeilDiv(b, n)
    ensures a - b < n && b - a < n
  {
    CeilDivBounds(a, n);
    CeilDivBounds(b, n);
  }

  /** m whole rows below a positive id still on an n x n board means m < n. */
  lemma RowsBelow(n: int, id: int, m: int)
    requires n > 0 && id >= 1 && m >= 0 && id + n * m <= n * n
    ensures m <= n - 1
  {
    if m >= n {
      MulMono(n, n, m);
    }
  }

  /** From a cell of the board a run holds at most N - 1 cells. */
  lemma RunLength(g: Grid, id: int, dir: Direction)
    requires WellFormed(g) && OnBoard(g, id)
    ensures |Run(g, id, dir)| <= |g| - 1
  {
    var n, m := |g|, |Run(g, id, dir)|;
    if m > 0 {
      RunFromAt(g, id, dir, 1, m - 1);
      assert 1 + (m - 1) == m;
      var last := StepFrom(n, id, dir, m);
      assert OnBoard(g, last);
      if dir == L {
        assert HorizontalStep(n, id, -m) != -1;
        SameCeilClose(n, id - m, id);
      } else if dir == R {
        assert HorizontalStep(n, id, m) != -1;
        SameCeilClose(n, id + m, id);
      } else {
        VerticalStepMovesDown(n, id, if dir == U then -m else m);
        RowsBelow(n, id, m);
      }
    }
  }

  lemma {:induction false} RunFromUpIsDown(g: Grid, id: int, k: nat)
    requires WellFormed(g)
    ensures RunFrom(g, id, U, k) == RunFrom(g, id, D, k)
    decreases |g| * |g| - id - k
  {
    VerticalStepMovesDown(|g|, id, -(k as int));
    VerticalStepMovesDown(|g|, id, k);
    var next := StepFrom(|g|, id, D, k);
    if next >= 0 && GetCell(g, next, CellFull).Some? {
      StepBound(|g|, id, D, k);
      RunFromUpIsDown(g, id, k + 1);
    }
  }

  /** Because the vertical step ignores the sign of its offset, the run "up" from a cell is
      the run down from it. */
  lemma RunUpIsDown(g: Grid, id: int)
    requires WellFormed(g)
    ensures Run(g, id, U) == Run(g, id, D)
  {
    RunFromUpIsDown(g, id, 1);
  }

  /** The neighbour flags agree with the first step of the runs, except that the step up goes
      down and that row ends are only respected by the runs: the cell below is occupied iff the
      run down is non-empty, and away from the first (last) column the cell to the left (right)
      is occupied iff the run left (right) is non-empty. */
  lemma NeighboursMatchRuns(g: Grid, id: int)
    requires WellFormed(g) && OnBoard(g, id)
    ensures Neighbours(g, id).b <==> |Run(g, id, D)| > 0
    ensures Col(|g|, id) > 0 ==> (Neighbours(g, id).l <==> |Run(g, id, L)| > 0)
    ensures Col(|g|, id) < |g| - 1 ==> (Neighbours(g, id).r <==> |Run(g, id, R)| > 0)
  {
    var n, q, c := |g|, Row(|g|, id), Col(|g|, id);
    RowColBounds(n, id);
    VerticalStepMovesDown(n, id, 1);
    if c > 0 {
      HorizontalStepRows(n, id, -1);
      DivModUnique(id - 2, n, q, c - 1);
    }
    if c < n - 1 {
      HorizontalStepRows(n, id, 1);
      DivModUnique(id, n, q, c + 1);
    }
  }
}
