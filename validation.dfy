/** isValidWordPlacement of board.go on the board as a value: the letter-by-letter scan, the
    rules it enforces, and a declarative statement of what it accepts and returns. */
module Validation {
  import opened Wrappers
  import opened Grid

  /** Why a placement is refused, one variant per error the validator returns. */
  datatype PlacementError =
    | InvalidCellRange   // a letter would wrap to another row
    | DoesNotFit         // a letter would land off the board
    | InvalidOverlap     // a letter would cover a different letter
    | TooCloseBelow | TooCloseAbove | TooCloseRight | TooCloseLeft
    | CompleteOverlap    // every letter is already on the board
    | NotConnected       // a later word neither overlaps nor touches anything
    | MissesCentre       // the first word does not cover the centre cell

  /** The validator's accumulators after some letters: overlap count, ids covered, result. */
  datatype Scan = Scan(overlaps: nat, covered: seq<int>, result: PlacementResult)

  const NoScan: Scan := Scan(0, [], PlacementResult([], [], []))

  /** slices.Reverse on a copy. */
  function Reversed<T>(s: seq<T>): (r: seq<T>)
    ensures |r| == |s|
    ensures forall i :: 0 <= i < |s| ==> r[i] == s[|s| - 1 - i]
  {
    if s == [] then [] else Reversed(s[1..]) + [s[0]]
  }

  /** The horizontal chain a letter of a down word joins: the run to its left read left to
      right, the new cell, the run to its right. The branch taking all cells so far belongs to
      across words, which never build this chain. */
  function CrossX(g: Grid, p: Placement, i: int, thisCell: Cell, nb: Overlap, cells: seq<Cell>): seq<Cell>
    requires WellFormed(g)
  {
    (if nb.l then Reversed(Run(g, thisCell.index, L)) else [])
    + (if nb.l || nb.r then (if i > 0 && p.direction == Across then cells else [thisCell]) else [])
    + (if nb.r then Run(g, thisCell.index, R) else [])
  }

  /** The vertical chain a letter of an across word joins, as written: when the cell above is
      occupied, the run "up" in reverse followed by the board's own (empty) target cell, then
      the new cell, then the run down. */
  function CrossY(g: Grid, cell: Cell, thisCell: Cell, nb: Overlap): seq<Cell>
    requires WellFormed(g)
  {
    (if nb.a then Reversed(Run(g, cell.index, U)) + [cell] else [])
    + (if nb.a || nb.b then [thisCell] else [])
    + (if nb.b then Run(g, cell.index, D) else [])
  }

  /** The touching chains recorded for a letter that lands on an empty cell. */
  function Chains(g: Grid, p: Placement, i: int, cell: Cell, thisCell: Cell, cells: seq<Cell>): seq<seq<Cell>>
    requires WellFormed(g)
  {
    var nb := Neighbours(g, cell.index);
    var x := CrossX(g, p, i, thisCell, nb, cells);
    var y := CrossY(g, cell, thisCell, nb);
    (if p.direction != Across && |x| > 0 then [x] else [])
    + (if p.direction != Down && |y| > 0 then [y] else [])
  }

  /** One iteration of the validator's loop, for letter i. */
  function ScanLetter(g: Grid, p: Placement, word: seq<char>, i: nat, s: Scan): Result<Scan, PlacementError>
    requires WellFormed(g) && i < |word|
  {
    var letter := word[i];
    var idx := CellIndex(|g|, p, i);
    if idx == -1 then Err(InvalidCellRange)
    else match GetCell(g, idx, CellAny)
      case None => Err(DoesNotFit)
      case Some(cell) =>
        if !cell.Empty() && cell.ch != letter then Err(InvalidOverlap)
        else
          var overlapping := cell.ch == letter;
          var thisCell := Cell(cell.index, letter, cell.bonus);
          var cells := s.result.cells + [thisCell];
          var nb := Neighbours(g, idx);
          if p.direction == Down && i == |word| - 1 && nb.b then Err(TooCloseBelow)
          else if p.direction == Down && i == 0 && nb.a then Err(TooCloseAbove)
          else if p.direction == Across && i == |word| - 1 && nb.r then Err(TooCloseRight)
          else if p.direction == Across && i == 0 && nb.l then Err(TooCloseLeft)
          else
            Ok(Scan(
              if overlapping then s.overlaps + 1 else s.overlaps,
              s.covered + [idx],
              PlacementResult(
                cells,
                if overlapping then s.result.lettersSpent else s.result.lettersSpent + [letter],
                if overlapping then s.result.touching
                else s.result.touching + Chains(g, p, i, cell, thisCell, cells))))
  }

  /** The loop from letter i on, stopping at the first error. */
  function ScanFrom(g: Grid, p: Placement, word: seq<char>, i: nat, s: Scan): Result<Scan, PlacementError>
    requires WellFormed(g) && i <= |word|
    decreases |word| - i
  {
    if i == |word| then Ok(s)
    else match ScanLetter(g, p, word, i, s)
      case Err(e) => Err(e)
      case Ok(s') => ScanFrom(g, p, word, i + 1, s')
  }

  /** isValidWordPlacement: the scan, then the whole-word rules. */
  function Validate(g: Grid, p: Placement, word: seq<char>, firstWord: bool): Result<PlacementResult, PlacementError>
    requires WellFormed(g)
  {
    match ScanFrom(g, p, word, 0, NoScan)
    case Err(e) => Err(e)
    case Ok(s) =>
      if s.overlaps == |word| then Err(CompleteOverlap)
      else if !firstWord && s.overlaps == 0 && |s.result.touching| == 0 then Err(NotConnected)
      else if firstWord && CenterCell(|g|) !in s.covered then Err(MissesCentre)
      else Ok(s.result)
  }

  // ----- what the validator accepts, stated letter by letter -----

  /** The id letter i of the placement goes to. */
  function Target(g: Grid, p: Placement, i: int): int
    requires WellFormed(g)
  {
    CellIndex(|g|, p, i)
  }

  /** Letter i stays on its row and on the board. */
  predicate Fits(g: Grid, p: Placement, i: int)
    requires WellFormed(g)
  {
    Target(g, p, i) != -1 && OnBoard(g, Target(g, p, i))
  }

  /** Letter i is already on the board at its cell. */
  predicate Overlaps(g: Grid, p: Placement, word: seq<char>, i: int)
    requires WellFormed(g) && 0 <= i < |word|
  {
    Fits(g, p, i) && CellAt(g, Target(g, p, i)).ch == word[i]
  }

  /** Letter i goes on a cell that does not already hold it. */
  predicate Lands(g: Grid, p: Placement, word: seq<char>, i: int)
    requires WellFormed(g) && 0 <= i < |word|
  {
    Fits(g, p, i) && CellAt(g, Target(g, p, i)).ch != word[i]
  }

  /** Letter i has an occupied neighbour across the word's axis. */
  predicate Perpendicular(g: Grid, p: Placement, i: int)
    requires WellFormed(g)
  {
    var nb := Neighbours(g, Target(g, p, i));
    if p.direction == Down then nb.l || nb.r else nb.a || nb.b
  }

  /** Letter i fits, lands on an empty cell or its own letter, and the cell before the first
      letter and after the last along the axis are empty. */
  predicate LetterOk(g: Grid, p: Placement, word: seq<char>, i: int)
    requires WellFormed(g) && 0 <= i < |word|
  {
    && Fits(g, p, i)
    && (CellAt(g, Target(g, p, i)).Empty() || CellAt(g, Target(g, p, i)).ch == word[i])
    && var nb := Neighbours(g, Target(g, p, i));
       && !(p.direction == Down && i == |word| - 1 && nb.b)
       && !(p.direction == Down && i == 0 && nb.a)
       && !(p.direction == Across && i == |word| - 1 && nb.r)
       && !(p.direction == Across && i == 0 && nb.l)
  }

  /** The rules of a legal placement: every letter is fine, at least one letter is new, a later
      word overlaps a letter or joins a chain across its axis, a first word covers the centre. */
  predicate Acceptable(g: Grid, p: Placement, word: seq<char>, firstWord: bool)
    requires WellFormed(g)
  {
    && (forall i :: 0 <= i < |word| ==> LetterOk(g, p, word, i))
    && (exists i :: 0 <= i < |word| && Lands(g, p, word, i))
    && (!firstWord ==>
          (exists i :: 0 <= i < |word| && Overlaps(g, p, word, i)) ||
          (exists i :: 0 <= i < |word| && Lands(g, p, word, i) && Perpendicular(g, p, i)))
    && (firstWord ==> exists i :: 0 <= i < |word| && Target(g, p, i) == CenterCell(|g|))
  }

  /** The cells of an accepted placement: one per letter, in order, at the letter's id, with
      the letter and the bonus of that cell. */
  function ExpectedCells(g: Grid, p: Placement, word: seq<char>): seq<Cell>
    requires WellFormed(g)
  {
    seq(|word|, i requires 0 <= i < |word| =>
      Cell(Target(g, p, i), word[i], Lookup(g, Target(g, p, i)).bonus))
  }

  /** The ids the letters go to. */
  function Covered(g: Grid, p: Placement, word: seq<char>): seq<int>
    requires WellFormed(g)
  {
    seq(|word|, i => Target(g, p, i))
  }

  /** The letters from i on that land on a cell not already holding them. */
  function SpentFrom(g: Grid, p: Placement, word: seq<char>, i: nat): seq<char>
    requires WellFormed(g) && i <= |word|
    decreases |word| - i
  {
    if i == |word| then []
    else (if Lookup(g, Target(g, p, i)).ch != word[i] then [word[i]] else []) + SpentFrom(g, p, word, i + 1)
  }

  /** The letters from i on that are already on the board. */
  function OverlapCount(g: Grid, p: Placement, word: seq<char>, i: nat): nat
    requires WellFormed(g) && i <= |word|
    decreases |word| - i
  {
    if i == |word| then 0
    else (if Lookup(g, Target(g, p, i)).ch == word[i] then 1 else 0) + OverlapCount(g, p, word, i + 1)
  }

  /** The chains letter i joins when it lands on an empty cell. */
  function ChainsAt(g: Grid, p: Placement, word: seq<char>, i: nat): seq<seq<Cell>>
    requires WellFormed(g) && i < |word|
  {
    var cell := Lookup(g, Target(g, p, i));
    Chains(g, p, i, cell, Cell(Target(g, p, i), word[i], cell.bonus), [])
  }

  /** The chains joined by the letters from i on. */
  function TouchFrom(g: Grid, p: Placement, word: seq<char>, i: nat): seq<seq<Cell>>
    requires WellFormed(g) && i <= |word|
    decreases |word| - i
  {
    if i == |word| then []
    else
      var own := if Lookup(g, Target(g, p, i)).ch != word[i] then ChainsAt(g, p, word, i) else [];
      own + TouchFrom(g, p, word, i + 1)
  }

  // ----- the scan against the letter-by-letter statement -----

  /** The cells so far never matter: CrossX's branch for cells so far is dead code. */
  lemma ChainsIgnoreCells(g: Grid, p: Placement, i: int, cell: Cell, thisCell: Cell, cells: seq<Cell>)
    requires WellFormed(g)
    ensures Chains(g, p, i, cell, thisCell, cells) == Chains(g, p, i, cell, thisCell, [])
  {
  }

  /** A new letter records a chain exactly when a neighbour across the word's axis is occupied. */
  lemma ChainsNonEmpty(g: Grid, p: Placement, i: int, cell: Cell, thisCell: Cell)
    requires WellFormed(g)
    ensures |Chains(g, p, i, cell, thisCell, [])| > 0 <==>
      var nb := Neighbours(g, cell.index);
      if p.direction == Down then nb.l || nb.r else nb.a || nb.b
  {
  }

  /** The accumulators after letter i, stated through the letter-by-letter definitions. */
  function Advance(g: Grid, p: Placement, word: seq<char>, i: nat, s: Scan): Scan
    requires WellFormed(g) && i < |word|
  {
    var t := Target(g, p, i);
    var overlapping := Lookup(g, t).ch == word[i];
    Scan(
      s.overlaps + (if overlapping then 1 else 0),
      s.covered + [t],
      PlacementResult(
        s.result.cells + [ExpectedCells(g, p, word)[i]],
        s.result.lettersSpent + (if overlapping then [] else [word[i]]),
        s.result.touching + (if overlapping then [] else ChainsAt(g, p, word, i))))
  }

  lemma ScanLetterSpec(g: Grid, p: Placement, word: seq<char>, i: nat, s: Scan)
    requires WellFormed(g) && i < |word|
    ensures ScanLetter(g, p, word, i, s).Ok? <==> LetterOk(g, p, word, i)
    ensures ScanLetter(g, p, word, i, s).Ok? ==> ScanLetter(g, p, word, i, s).value == Advance(g, p, word, i, s)
  {
    var t := Target(g, p, i);
    if Fits(g, p, i) {
      var cell := CellAt(g, t);
      ChainsIgnoreCells(g, p, i, cell, Cell(cell.index, word[i], cell.bonus), s.result.cells + [Cell(cell.index, word[i], cell.bonus)]);
    }
  }

  /** What the scan from letter i appends to s: the remaining letters' overlaps, ids, cells,
      spent letters and chains. */
  function ExpectedScan(g: Grid, p: Placement, word: seq<char>, i: nat, s: Scan): Scan
    requires WellFormed(g) && i <= |word|
  {
    Scan(
      s.overlaps + OverlapCount(g, p, word, i),
      s.covered + Covered(g, p, word)[i..],
      PlacementResult(
        s.result.cells + ExpectedCells(g, p, word)[i..],
        s.result.lettersSpent + SpentFrom(g, p, word, i),
        s.result.touching + TouchFrom(g, p, word, i)))
  }

  lemma ExpectedStep(g: Grid, p: Placement, word: seq<char>, i: nat, s: Scan)
    requires WellFormed(g) && i < |word|
    ensures ExpectedScan(g, p, word, i + 1, Advance(g, p, word, i, s)) == ExpectedScan(g, p, word, i, s)
  {
    var t := Target(g, p, i);
    var overlapping := Lookup(g, t).ch == word[i];
    var cov, cells := Covered(g, p, word), ExpectedCells(g, p, word);
    var s' := Advance(g, p, word, i, s);
    var e, e' := ExpectedScan(g, p, word, i, s), ExpectedScan(g, p, word, i + 1, s');
    assert e'.covered == e.covered by {
      assert cov[i..] == [cov[i]] + cov[i + 1..];
      SeqAssoc(s.covered, [t], cov[i + 1..]);
    }
    assert e'.result.cells == e.result.cells by {
      assert cells[i..] == [cells[i]] + cells[i + 1..];
      SeqAssoc(s.result.cells, [cells[i]], cells[i + 1..]);
    }
    assert e'.result.lettersSpent == e.result.lettersSpent by {
      SeqAssoc(s.result.lettersSpent, if overlapping then [] else [word[i]], SpentFrom(g, p, word, i + 1));
    }
    assert e'.result.touching == e.result.touching by {
      SeqAssoc(s.result.touching, if overlapping then [] else ChainsAt(g, p, word, i), TouchFrom(g, p, word, i + 1));
    }
  }

  lemma SeqAssoc<T>(a: seq<T>, b: seq<T>, c: seq<T>)
    ensures (a + b) + c == a + (b + c)
  {
  }

  lemma SeqSnoc<T>(s: seq<T>, i: nat)
    requires i < |s|
    ensures s[..i + 1] == s[..i] + [s[i]]
  {
  }

  /** Every letter from i on is fine, stated by recursion on i. */
  predicate AllOk(g: Grid, p: Placement, word: seq<char>, i: nat)
    requires WellFormed(g) && i <= |word|
    decreases |word| - i
  {
    i == |word| || (LetterOk(g, p, word, i) && AllOk(g, p, word, i + 1))
  }

  lemma {:induction false} AllOkMeans(g: Grid, p: Placement, word: seq<char>, i: nat)
    requires WellFormed(g) && i <= |word|
    ensures AllOk(g, p, word, i) <==> forall j :: i <= j < |word| ==> LetterOk(g, p, word, j)
    decreases |word| - i
  {
    if i < |word| {
      AllOkMeans(g, p, word, i + 1);
    }
  }

  /** The scan from letter i succeeds iff every remaining letter is fine. */
  lemma {:induction false} ScanFromOk(g: Grid, p: Placement, word: seq<char>, i: nat, s: Scan)
    requires WellFormed(g) && i <= |word|
    ensures ScanFrom(g, p, word, i, s).Ok? <==> AllOk(g, p, word, i)
    decreases |word| - i
  {
    if i < |word| {
      ScanLetterSpec(g, p, word, i, s);
      if LetterOk(g, p, word, i) {
        ScanFromOk(g, p, word, i + 1, Advance(g, p, word, i, s));
      }
    }
  }

  /** A successful scan from letter i appends exactly what ExpectedScan says. */
  lemma {:induction false} ScanFromValue(g: Grid, p: Placement, word: seq<char>, i: nat, s: Scan)
    requires WellFormed(g) && i <= |word| && AllOk(g, p, word, i)
    ensures ScanFrom(g, p, word, i, s) == Ok(ExpectedScan(g, p, word, i, s))
    decreases |word| - i
  {
    if i < |word| {
      ScanLetterSpec(g, p, word, i, s);
      ScanFromValue(g, p, word, i + 1, Advance(g, p, word, i, s));
      ExpectedStep(g, p, word, i, s);
    } else {
      var cov, cells := Covered(g, p, word)[i..], ExpectedCells(g, p, word)[i..];
      assert cov == [] && cells == [];
      assert s.covered + cov == s.covered && s.result.cells + cells == s.result.cells;
      assert s.result.lettersSpent + [] == s.result.lettersSpent;
      assert s.result.touching + [] == s.result.touching;
    }
  }

  /** Each letter from i on is either spent or counted as an overlap. */
  lemma {:induction false} SpentAndOverlaps(g: Grid, p: Placement, word: seq<char>, i: nat)
    requires WellFormed(g) && i <= |word|
    ensures |SpentFrom(g, p, word, i)| + OverlapCount(g, p, word, i) == |word| - i
    decreases |word| - i
  {
    if i < |word| {
      SpentAndOverlaps(g, p, word, i + 1);
    }
  }

  /** Some letter from i on is already on the board at its cell. */
  predicate AnyOverlap(g: Grid, p: Placement, word: seq<char>, i: nat)
    requires WellFormed(g) && i <= |word|
    decreases |word| - i
  {
    i < |word| && (Overlaps(g, p, word, i) || AnyOverlap(g, p, word, i + 1))
  }

  /** Some letter from i on lands on a cell that does not hold it. */
  predicate AnyLands(g: Grid, p: Placement, word: seq<char>, i: nat)
    requires WellFormed(g) && i <= |word|
    decreases |word| - i
  {
    i < |word| && (Lands(g, p, word, i) || AnyLands(g, p, word, i + 1))
  }

  /** Some letter from i on lands next to an occupied cell across the word's axis. */
  predicate AnyJoin(g: Grid, p: Placement, word: seq<char>, i: nat)
    requires WellFormed(g) && i <= |word|
    decreases |word| - i
  {
    i < |word| && ((Lands(g, p, word, i) && Perpendicular(g, p, i)) || AnyJoin(g, p, word, i + 1))
  }

  lemma {:induction false} AnyOverlapMeans(g: Grid, p: Placement, word: seq<char>, i: nat)
    requires WellFormed(g) && i <= |word|
    ensures AnyOverlap(g, p, word, i) <==> exists j :: i <= j < |word| && Overlaps(g, p, word, j)
    decreases |word| - i
  {
    if i < |word| {
      AnyOverlapMeans(g, p, word, i + 1);
    }
  }

  lemma {:induction false} AnyLandsMeans(g: Grid, p: Placement, word: seq<char>, i: nat)
    requires WellFormed(g) && i <= |word|
    ensures AnyLands(g, p, word, i) <==> exists j :: i <= j < |word| && Lands(g, p, word, j)
    decreases |word| - i
  {
    if i < |word| {
      AnyLandsMeans(g, p, word, i + 1);
    }
  }

  lemma {:induction false} AnyJoinMeans(g: Grid, p: Placement, word: seq<char>, i: nat)
    requires WellFormed(g) && i <= |word|
    ensures AnyJoin(g, p, word, i) <==>
      exists j :: i <= j < |word| && Lands(g, p, word, j) && Perpendicular(g, p, j)
    decreases |word| - i
  {
    if i < |word| {
      AnyJoinMeans(g, p, word, i + 1);
    }
  }

  /** With every remaining letter fine, no overlap is counted iff none overlaps. */
  lemma {:induction false} NoOverlapFrom(g: Grid, p: Placement, word: seq<char>, i: nat)
    requires WellFormed(g) && i <= |word| && AllOk(g, p, word, i)
    ensures OverlapCount(g, p, word, i) == 0 <==> !AnyOverlap(g, p, word, i)
    decreases |word| - i
  {
    if i < |word| {
      NoOverlapFrom(g, p, word, i + 1);
    }
  }

  /** With every remaining letter fine, every letter is counted as an overlap iff none lands. */
  lemma {:induction false} AllOverlapFrom(g: Grid, p: Placement, word: seq<char>, i: nat)
    requires WellFormed(g) && i <= |word| && AllOk(g, p, word, i)
    ensures OverlapCount(g, p, word, i) == |word| - i <==> !AnyLands(g, p, word, i)
    decreases |word| - i
  {
    if i < |word| {
      AllOverlapFrom(g, p, word, i + 1);
      SpentAndOverlaps(g, p, word, i + 1);
    }
  }

  /** With every remaining letter fine, no chain is recorded iff no letter joins one. */
  lemma {:induction false} NoTouchFrom(g: Grid, p: Placement, word: seq<char>, i: nat)
    requires WellFormed(g) && i <= |word| && AllOk(g, p, word, i)
    ensures |TouchFrom(g, p, word, i)| == 0 <==> !AnyJoin(g, p, word, i)
    decreases |word| - i
  {
    if i < |word| {
      NoTouchFrom(g, p, word, i + 1);
      var t := Target(g, p, i);
      var cell := CellAt(g, t);
      ChainsNonEmpty(g, p, i, cell, Cell(t, word[i], cell.bonus));
    }
  }

  /** Every letter from i on that is fine stays on its row and on the board. */
  lemma {:induction false} AllOkFits(g: Grid, p: Placement, word: seq<char>, i: nat)
    requires WellFormed(g) && i <= |word| && AllOk(g, p, word, i)
    ensures forall j :: i <= j < |word| ==> Fits(g, p, j)
    decreases |word| - i
  {
    if i < |word| {
      AllOkFits(g, p, word, i + 1);
    }
  }

  /** Validate's verdict without quantifiers: every letter fine, not all overlapping, a later
      word overlapping or touching, a first word covering the centre. */
  predicate Accepted(g: Grid, p: Placement, word: seq<char>, firstWord: bool)
    requires WellFormed(g)
  {
    && AllOk(g, p, word, 0)
    && OverlapCount(g, p, word, 0) != |word|
    && (firstWord || OverlapCount(g, p, word, 0) != 0 || |TouchFrom(g, p, word, 0)| != 0)
    && (firstWord ==> CenterCell(|g|) in Covered(g, p, word))
  }

  /** isValidWordPlacement succeeds exactly on Accepted placements, with the letter-by-letter
      result. */
  lemma ValidateIsAccepted(g: Grid, p: Placement, word: seq<char>, firstWord: bool)
    requires WellFormed(g)
    ensures Validate(g, p, word, firstWord).Ok? <==> Accepted(g, p, word, firstWord)
    ensures Validate(g, p, word, firstWord).Ok? ==>
      Validate(g, p, word, firstWord).value ==
      PlacementResult(ExpectedCells(g, p, word), SpentFrom(g, p, word, 0), TouchFrom(g, p, word, 0))
  {
    ScanFromOk(g, p, word, 0, NoScan);
    if AllOk(g, p, word, 0) {
      ScanFromValue(g, p, word, 0, NoScan);
      assert Covered(g, p, word)[0..] == Covered(g, p, word);
      assert ExpectedCells(g, p, word)[0..] == ExpectedCells(g, p, word);
    }
  }

  /** The centre is among the covered ids iff some letter goes there. */
  lemma CoveredMeans(g: Grid, p: Placement, word: seq<char>, id: int)
    requires WellFormed(g)
    ensures id in Covered(g, p, word) <==> exists i :: 0 <= i < |word| && Target(g, p, i) == id
  {
    if id in Covered(g, p, word) {
      var i :| 0 <= i < |word| && Covered(g, p, word)[i] == id;
      assert Target(g, p, i) == id;
    }
    if exists i :: 0 <= i < |word| && Target(g, p, i) == id {
      var i :| 0 <= i < |word| && Target(g, p, i) == id;
      assert Covered(g, p, word)[i] == id;
    }
  }

  /** The counting verdict and the rules agree. */
  lemma AcceptedMeans(g: Grid, p: Placement, word: seq<char>, firstWord: bool)
    requires WellFormed(g)
    ensures Accepted(g, p, word, firstWord) <==> Acceptable(g, p, word, firstWord)
  {
    AllOkMeans(g, p, word, 0);
    AnyOverlapMeans(g, p, word, 0);
    AnyLandsMeans(g, p, word, 0);
    AnyJoinMeans(g, p, word, 0);
    CoveredMeans(g, p, word, CenterCell(|g|));
    if AllOk(g, p, word, 0) {
      NoOverlapFrom(g, p, word, 0);
      AllOverlapFrom(g, p, word, 0);
      NoTouchFrom(g, p, word, 0);
    }
  }

  /** isValidWordPlacement accepts exactly the placements that follow the rules. */
  lemma ValidateAccepts(g: Grid, p: Placement, word: seq<char>, firstWord: bool)
    requires WellFormed(g)
    ensures Validate(g, p, word, firstWord).Ok? <==> Acceptable(g, p, word, firstWord)
  {
    ValidateIsAccepted(g, p, word, firstWord);
    AcceptedMeans(g, p, word, firstWord);
  }

  /** The cells of a placement whose letters all fit: one per letter, in order, each carrying
      its letter at its id with the bonus of that cell. */
  lemma ExpectedCellsAt(g: Grid, p: Placement, word: seq<char>)
    requires WellFormed(g) && forall i :: 0 <= i < |word| ==> Fits(g, p, i)
    ensures |ExpectedCells(g, p, word)| == |word|
    ensures forall i :: 0 <= i < |word| ==>
      Fits(g, p, i) &&
      ExpectedCells(g, p, word)[i] == Cell(Target(g, p, i), word[i], CellAt(g, Target(g, p, i)).bonus)
  {
  }

  /** An accepted placement has every letter on the board; it returns the letter-by-letter
      cells, spends exactly the letters that land on cells not holding them, so spent letters
      and overlaps add up to the word, and lists the chains those letters join. */
  lemma ValidateResult(g: Grid, p: Placement, word: seq<char>, firstWord: bool)
    requires WellFormed(g) && Validate(g, p, word, firstWord).Ok?
    ensures forall i :: 0 <= i < |word| ==> Fits(g, p, i)
    ensures Validate(g, p, word, firstWord).value ==
      PlacementResult(ExpectedCells(g, p, word), SpentFrom(g, p, word, 0), TouchFrom(g, p, word, 0))
    ensures |Validate(g, p, word, firstWord).value.lettersSpent| + OverlapCount(g, p, word, 0) == |word|
  {
    ValidateIsAccepted(g, p, word, firstWord);
    AllOkFits(g, p, word, 0);
    SpentAndOverlaps(g, p, word, 0);
  }
}
