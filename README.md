# Scrabble rules engine in Dafny

This project models the rules engine of a Go Scrabble package: the constant tables (letter
scores, tile distribution, bonus squares, bag construction), board geometry on a 15 x 15
grid with cells numbered row-major from 1, the placement validator with its cross-word
discovery, word scoring, the placement text codec (`A113`, `D57`), rack accounting
(exact tile first, then a blank), the classic turn-based game and the "steal" variant
(Scrabulous), where everybody plays from one shared rack and the best word submitted during
a steal window is committed.

Modules follow the source files:

- `Letters` (letters.dfy): the tables of letters.go. `MakeLetterBag` and `RepeatLetter` are
  their loops.
- `Grid` (grid.dfy): the board as a value. It covers cell lookup, id stepping along a row or
  down a column, occupied neighbours, and the runs of occupied cells that `NeighboringWord`
  walks.
- `Validation` (validation.dfy): `isValidWordPlacement` as a function over the board value.
  It comes with a declarative statement of which placements are accepted and what they
  return.
- `Scoring` (scoring.dfy): `PlacementResult.Score`, first as a definition and then as the
  source's loops.
- `PlacementText` (placement_text.dfy): `Placement.String` and `ParsePlacement`.
- `BoardState` (board_state.dfy): the `Board` object. Its rows change in place through
  `SetCell` and `placeWord`; each loop is proved equal to the value-level definition.
- `Rack` (rack.dfy): `getUsedLetters`, `removeLetters`' rebuilding loop, the bag draw and
  ASCII upper-casing. classic.go and scrabulous.go both use these.
- `ClassicGame` (classic.dfy): the `Player` and `Classic` objects of classic.go.
- `Scrabulous` (scrabulous.dfy): the `Scrabulous` object of scrabulous.go and its score
  tally.
- `Wrappers` (wrappers.dfy): `Option`, `Result` and `Outcome`. Every Go `error` return is a
  datatype variant naming the failed check.

Behaviour that looks unintended is modelled as written and exhibited by lemmas:

- `getNextVerticalCellId` negates an already negative product, so a negative offset also
  moves down. The upward walk of `NeighboringWord` is therefore the downward walk
  (`Grid.VerticalStepMovesDown`, `Grid.RunUpIsDown`).
- The vertical cross-word chain holds the target cell twice: once as it was (empty) and once
  with the new letter. A word multiplier under the new letter therefore counts twice
  (`Scoring.RepeatedTargetCell`, `Scoring.RepeatedTargetExample` against
  `Scoring.SingleTargetExample`).
- `nonEmptyNeighbouringCells` looks at id - 1 and id + 1 without a row check, so at a row's
  end it sees the neighbouring row (`Grid.LeftNeighbourWrapsRows`,
  `Grid.RightNeighbourWrapsRows`).
- The branch at board.go:176-177 can never run: it tests `Across` inside a branch that
  excludes `Across`. The horizontal chain therefore never uses the cells placed so far
  (`Validation.ChainsIgnoreCells`).
- `ParsePlacement` accepts a sign, so `A-5` parses (`PlacementText.ParseSigned`).
- Classic `PlaceWord` spends the letters before writing the word. If the write then failed
  on a row wrap, the letters would stay spent and the board partly written; `Committed`
  keeps that branch. In the model it is unreachable: a validated placement never wraps
  (`BoardState.PlaceMatchesValidate`). In the source it is reached only through words with
  multi-byte runes, which the model leaves out (see "Left out").
- In `refillPlayerLetters`, `rand.IntN(len - 1)` never draws the bag's last tile and panics
  when one tile is left. The panic is the `DrawFromLastTile` error.
- Scrabulous' `ResetLetters` draws with the same `rand.IntN(len - 1)`, guarded against the
  one-tile case. With more than seven tiles in all, the last tile of the bag once the rack
  is returned (the rack's last letter when the rack was not empty) is never drawn
  (`Scrabulous.Redraw`).
- Scrabulous' `ResetGame` does not clear the rack before `ResetLetters`, so the old rack's
  tiles join the fresh 100-tile bag: after a reset the game holds 100 tiles plus the old
  rack (`Scrabulous.Scrabulous.ResetGame`).
- `NextPlayer` asks about the same seat on every attempt.

## Model

| member | source | states |
|---|---|---|
| Letters.LetterScore | letters.go:3-31 | every letter A-Z scores 1..10; the blank and every other character, such as the empty cell's zero rune, score 0 |
| Letters.DistributionKeysCounted | letters.go:33-61 | a character has tiles exactly when it is one of the 27 keys of the distribution (A-Z and the blank) |
| Letters.DistributionTotal | letters.go:33-61 | the distribution holds 100 tiles |
| Letters.ReferenceBag | letters.go:33-61 | the tiles listed key by key have each character's count from the table, and there are 100 of them |
| Letters.BonusSquaresOnBoard | letters.go:64-131 | every bonus square lies in 1..225 and the centre 113 has no bonus |
| Letters.BonusCounts | letters.go:64-131 | the bonus of an id is k exactly when the id is in k's square set; there are 8 triple-word, 12 triple-letter, 16 double-word and 24 double-letter squares |
| Letters.BonusRotation | letters.go:64-131 | the layout is unchanged by the 180-degree rotation id -> 226 - id |
| Letters.RepeatLetter | letters.go:141-147 | the result has length num and every element is the letter |
| Letters.UniformCount | letters.go:141-147 | a run of one letter holds that letter as many times as the run is long, and nothing else |
| Letters.TilesOfCount | letters.go:133-139 | appending each key's run in turn gives every key met so far its table count and other characters none |
| Letters.MakeLetterBag | letters.go:133-139 | every character occurs in the bag as often as the distribution says, whatever the map's order; 100 tiles including 2 blanks |
| Grid.NewGridWellFormed | board.go:335-353 | row r, column c of a new board has id r*N+c+1, is empty and has the bonus of its id |
| Grid.CeilDivRow | board.go:97 | the float ceiling of id/N equals the integer (id-1)/N + 1 for positive ids |
| Grid.HorizontalStepRows | board.go:94-101 | a horizontal step returns id+k when id+k is on id's row and -1 otherwise |
| Grid.HorizontalStepRight | board_test.go:64-88 | 1 step +1 gives 2 |
| Grid.HorizontalStepLeft | board_test.go:64-88 | 2 step -1 gives 1 |
| Grid.HorizontalStepPastRowEnd | board_test.go:64-88 | 15 step +1 gives -1 |
| Grid.HorizontalStepBeforeRowStart | board_test.go:64-88 | 31 step -1 gives -1 |
| Grid.VerticalStepMovesDown | board.go:83-92 | the vertical step is id + N*abs(offset): it never goes up or returns -1; (1, 1) gives 16 and (113, -2) gives 143, not 83 |
| Grid.CentreOfBoard | board.go:329-333 | on an odd board the centre id is on the middle row and middle column; it is 113 for N = 15 |
| Grid.CellFound | board.go:254-273 | the row scan finds a cell exactly for ids 1..N*N, and the cell found carries that id |
| Grid.CellAtIsUnique | board.go:254-273 | every cell of the board is the one found for its own id |
| Grid.GetCell | board.go:254-273 | a cell is returned exactly when the id is on the board and the occupancy filter passes; it is the grid's cell with that id |
| Grid.LeftNeighbourWrapsRows | board.go:320-327 | at a row's first column the left flag reads the last cell of the row above |
| Grid.RightNeighbourWrapsRows | board.go:320-327 | at a row's last column the right flag reads the first cell of the row below |
| Grid.RunCells | board.go:275-299 | each cell of a run is the occupied cell one more step away, and the step after the run is off the board or empty |
| Grid.RunLength | board.go:275-299 | a run from an on-board cell has at most N-1 cells |
| Grid.RunUpIsDown | board.go:275-299 | the upward run equals the downward run |
| Grid.NeighboursMatchRuns | board.go:320-327 | the below flag holds iff the downward run is non-empty; the left and right flags likewise, away from the row ends |
| Validation.Reversed | board.go:172 | the reversal has the same length and element i is the input's element counted i from the end |
| Validation.ChainsIgnoreCells | board.go:175-181 | the horizontal chain never depends on the cells placed so far (the branch at 176-177 is dead) |
| Validation.ChainsNonEmpty | board.go:164-208 | a letter forms cross chains exactly when it has an occupied neighbour across the placement's axis |
| Validation.ScanLetterSpec | board.go:113-209 | one letter passes exactly when its cell fits, overlaps correctly and violates no end-adjacency rule; it then advances the accumulators as the declarative scan says |
| Validation.ScanFromOk | board.go:113-210 | the letter loop succeeds exactly when every remaining letter passes |
| Validation.SpentAndOverlaps | board.go:131-138 | letters spent and overlaps add up to the letters scanned |
| Validation.ValidateIsAccepted | board.go:103-233 | validation succeeds exactly when every letter passes and the overlap, connection and centre rules hold; the result is the expected cells, spent letters and chains |
| Validation.AcceptedMeans | board.go:211-230 | the counting checks agree with the rules: some letter overlaps, some lands on an empty cell, a later word touches something, a first word covers the centre |
| Validation.ValidateAccepts | board.go:103-233 | isValidWordPlacement accepts exactly the placements that follow the rules |
| Validation.CoveredMeans | board.go:219-226 | an id is among the covered ids iff some letter's target is that id |
| Validation.ExpectedCellsAt | board.go:140-146 | the result cells are one per letter, in order, each with that letter at its target id and the cell's bonus |
| Validation.ValidateResult | board.go:113-146 | an accepted placement has every letter on the board, returns the expected cells, spends exactly the letters landing on empty cells, and spent plus overlaps equals the word length |
| Scoring.LetterValue | board.go:409-417 | a letter's value is its score times the letter factor of its square, at most 30 |
| Scoring.LetterSumAppend | board.go:409-425 | the letter sum of two joined chains is the sum of their letter sums |
| Scoring.MultiplierAppend | board.go:426-433 | the word multiplier of joined bonus lists is the product |
| Scoring.MultiplierCounts | board.go:407-433 | a chain's multiplier is 2^(double-word squares) * 3^(triple-word squares) |
| Scoring.PlainChain | board.go:411-413 | a chain without bonuses has no word bonus and scores the plain sum of its letters |
| Scoring.ChainsTotalAppend | board.go:403-435 | the total over joined chain lists is the sum of their totals |
| Scoring.SingleCellChainIgnored | board.go:404-406 | adding a one-cell chain to the touching list leaves the score unchanged |
| Scoring.RackBonusExact | board.go:436-438 | the score has 50 more exactly when seven letters are spent, everything else being equal |
| Scoring.LoneChain | board.go:399-402 | with no touching chains the score is the word's chain score plus the rack bonus |
| Scoring.RepeatedTargetCell | board.go:192-207 | in a vertical chain listing the empty target cell and then the placed cell, the letter counts once and the square's word factor twice |
| Scoring.RepeatedTargetExample | board.go:197-200 | A above an empty double-word 113 and then B there scores 16 |
| Scoring.SingleTargetExample | board.go:397-440 | the same chain listing the target once scores 8 |
| Scoring.FoofScores | example/classic/simple/main.go:16-31 | FOOF across from 113 on plain squares scores 10 |
| Scoring.FoofDoubleWord | board.go:418-420 | FOOF with its last letter on a double-word square scores 20 |
| Scoring.FoofDoubleLetterAndWord | board.go:414-420 | FOOF with a double-letter first F and a double-word last F scores 28 |
| Scoring.AddLetters | board.go:409-425 | the letter loop's total is the letter sum and it collects the word bonuses in order |
| Scoring.ApplyBonuses | board.go:426-433 | the bonus loop multiplies the total by the multiplier of the bonuses |
| Scoring.Score | board.go:397-440 | the method's total equals the score definition |
| PlacementText.ParseString | board.go:360-389 | parsing a placement's text gives back the placement for every id in the int32 range |
| PlacementText.ParseStringOutOfRange | board.go:383-386 | the text of an id outside the int32 range is refused with BadCellIndex |
| PlacementText.IntNormalForm | board.go:360-389 | printing the number strconv accepted gives its text's normal form: a minus sign only for a negative value, digits without leading zeros |
| PlacementText.ParseNormalForm | board.go:360-389 | printing an accepted placement gives the direction letter followed by the normal form of its number |
| PlacementText.ParseRejects | board.go:374-386 | "X5" fails on the direction and "A" on the cell index |
| PlacementText.ParseSigned | board.go:383 | "A113" is the centre across and the signed "A-5" is accepted |
| BoardState.Put | board.go:301-318 | writing a letter keeps the board well formed and the same size; an off-board id changes nothing |
| BoardState.PutCellAt | board.go:301-318 | after a write only the cell with that id changes, and only in its letter |
| BoardState.TargetsDistinct | board.go:76-101 | two letters of one placement never have the same target id |
| BoardState.FirstWrap | board.go:237-241 | the first position whose step wraps is where placeWord stops; every earlier position has a target |
| BoardState.PlacedUntouched | board.go:235-252 | a cell no letter targets keeps its contents |
| BoardState.PlacedAt | board.go:243-244 | every written target holds its letter |
| BoardState.PlaceMatchesValidate | board.go:235-252 | after a successful validation of a word free of the empty cell's zero rune, placeWord runs to the end and returns the same cells and spent letters; with a zero rune on an empty cell, validation counts an overlap while SetCell reports the cell placed, so the spent letters differ |
| BoardState.PlacedBoard | board.go:243 | after placement every target on the board holds its letter and every other cell is as before |
| BoardState.Board.constructor | board.go:335-353 | a new board is the numbered grid with the standard bonuses, well formed when its size is positive |
| BoardState.Board.GetCell | board.go:254-273 | the scan returns what the value-level lookup does |
| BoardState.Board.NonEmptyNeighbouringCells | board.go:320-327 | the four flags are the value-level neighbour flags |
| BoardState.Board.NeighboringWord | board.go:275-299 | the walk returns the run of occupied cells in that direction |
| BoardState.Board.SetCell | board.go:301-318 | the board becomes the write of the letter; placed iff the id was on the board and empty; the cell returned is the written cell |
| BoardState.Board.ChainAcross | board.go:167-188 | the horizontal chain loop returns the horizontal chain definition |
| BoardState.Board.ChainDown | board.go:190-208 | the vertical chain loop returns the vertical chain definition |
| BoardState.Board.CheckLetter | board.go:113-209 | one pass of the letter loop gives the value-level letter step |
| BoardState.Board.CoversCentre | board.go:219-226 | the flag is true iff the centre id is among the covered ids |
| BoardState.Board.IsValidWordPlacement | board.go:103-233 | the method returns the value-level validation and does not change the board |
| BoardState.Board.PlaceWord | board.go:235-252 | the board gets the letters up to the first wrap; a wrap fails with InvalidCellRange, otherwise the cells written and the letters placed on empty cells are returned |
| Rack.Take | classic.go:29-47 | one wanted letter takes its own tile if one is left, else exactly one blank, else nothing and reports not found |
| Rack.UsedCounts | classic.go:18-48 | the counts left never exceed the rack, and when everything is found they sum to rack size minus letters |
| Rack.UsedExact | classic.go:18-48 | when the rack holds every wanted letter itself, all are found and exactly those tiles are removed |
| Rack.UsedNoBlank | classic.go:18-48 | without blanks, everything is found iff the wanted letters are a sub-multiset of the rack |
| Rack.UsedWithBlanks | classic.go:18-48 | for wanted letters that are not blanks: everything is found iff the wanted tiles the rack lacks number at most its blanks; then the blanks left are the blanks minus that shortfall and every other letter keeps what the wanted letters did not use |
| Rack.GetUsedLetters | classic.go:18-48 | the counting loops compute the value-level use of the rack |
| Rack.RackOf | classic.go:61-65 | the rebuilt rack as a multiset is the counts left, in whatever order the map gives |
| Rack.Remove | classic.go:203 | deleting tile i shortens the bag by one and removes exactly that tile |
| Rack.ToUpperSpec | classic.go:101 | upper-casing leaves no lower-case ASCII letter, changes nothing else and is idempotent |
| ClassicGame.NextIndexRoundRobin | classic.go:170-175 | from a seat of the table the next seat is (i + 1) mod n |
| ClassicGame.DrawConserves | classic.go:201-203 | a draw moves one tile from bag to rack and keeps their tiles together |
| ClassicGame.Player.constructor | classic.go:91 | a new player has the name, an empty rack and score 0 |
| ClassicGame.Player.GetUsedLetters | classic.go:18-48 | the player's rack use is the value-level use |
| ClassicGame.Player.HasLetters | classic.go:50-53 | hasLetters equals the found-all flag |
| ClassicGame.Player.RemoveLetters | classic.go:55-68 | fails with LettersNotFound and leaves the rack when a letter is missing, otherwise the rack becomes the counts left |
| ClassicGame.Classic.constructor | classic.go:70-79 | a new game has a fresh 15 x 15 board, the full distribution in the bag, no players and no words |
| ClassicGame.Classic.GetPlayer | classic.go:144-151 | the player in that seat, or UnknownPlayer for an index off the table |
| ClassicGame.Classic.GetCurrentPlayer | classic.go:153-160 | the player of the current seat, or UnknownPlayer |
| ClassicGame.Classic.GetCurrentPlayerName | classic.go:162-168 | the current player's name, or "Unknown" |
| ClassicGame.Classic.GetNextPlayerIdx | classic.go:170-175 | the next seat index, wrapping to 0 |
| ClassicGame.Classic.NextPlayer | classic.go:177-190 | the turn moves to the next seat iff that player has tiles; otherwise the game completes and the turn stays |
| ClassicGame.Classic.RefillPlayerLetters | classic.go:192-205 | the seat's rack gains tiles from the bag and rack plus bag is conserved; it stops at seven tiles or an empty bag, or fails with one tile left; the last tile is never drawn; an index off the table fails |
| ClassicGame.Classic.AddPlayer | classic.go:90-96 | the new player takes the next seat with score 0 and draws from the bag, conserving tiles; a failed draw is DrawFromLastTile with one tile left in the bag |
| ClassicGame.Classic.PlaceWord | classic.go:100-142 | validation uses firstWord iff no word is placed; an unknown seat, a refused placement or missing letters change nothing; otherwise the move is committed; only the board, the game and the mover's record may change, so every other seat is untouched |
| ClassicGame.Classic.Settle | classic.go:131-141 | the mover keeps the name; after a refill the score grows by the move's score, the turn passes with completion unchanged, or the game completes when the next seat has no tiles, and one more word is counted; a failed refill stops the move with completion unchanged |
| ClassicGame.Classic.Commit | classic.go:119-141 | the mover keeps the name, the letters are spent, the word is written up to the first wrap (a wrap stops the move with everything else unchanged), and the refill, score, turn and completion follow as Committed states |
| Scrabulous.FindFrom | scrabulous.go:162-170 | the first entry from k with that name, or -1 when there is none |
| Scrabulous.TallySpec | scrabulous.go:158-178 | the tally has one entry per distinct submitter, and each entry counts exactly that player's words and their points |
| Scrabulous.TallySums | scrabulous.go:158-178 | the tally's words add up to the number of placed words and its scores to their total |
| Scrabulous.Credit | scrabulous.go:160-177 | the inner loop credits the submitter's entry or appends a new one, as the tally step says |
| Scrabulous.SortByScore | scrabulous.go:180-182 | the result is ordered by non-increasing score and is a permutation of the input with the same sums |
| Scrabulous.PermutedTally | scrabulous.go:158-185 | any reordering of the tally keeps distinct names, the per-player counts and points, the sums and an entry for every submitter |
| Scrabulous.Redraw | scrabulous.go:213-226 | the draw loop conserves the tiles and ends with min(7, tiles) on the rack; with more than seven tiles the last one stays in the bag |
| Scrabulous.Scrabulous.constructor | scrabulous.go:37-44 | a new game has the steal time and then the state ResetGame leaves from Go's empty rack: exactly the distribution, seven tiles on the rack |
| Scrabulous.Scrabulous.IsPlayerAllowed | scrabulous.go:58-63 | allowed iff no word is placed or the last placed word is someone else's |
| Scrabulous.Scrabulous.IsNewBestWord | scrabulous.go:65-70 | with rising pending scores, a score is a new best iff it beats every pending word |
| Scrabulous.Scrabulous.BestPendingWord | scrabulous.go:72-77 | nothing iff nothing is pending, else the last pending word, which no pending word outscores |
| Scrabulous.Scrabulous.GetLastPendingWord | scrabulous.go:229-234 | the last pending word, if any |
| Scrabulous.Scrabulous.StartStealTime | scrabulous.go:193-197 | the deadline becomes now plus the steal time and the state stealing; nothing else changes |
| Scrabulous.Scrabulous.SetGameIdle | scrabulous.go:187-191 | the queue empties, the state is idle and there is no deadline; nothing else changes |
| Scrabulous.Scrabulous.GetUsedLetters | scrabulous.go:262-292 | the shared rack's use is the value-level use |
| Scrabulous.Scrabulous.HaveLetters | scrabulous.go:199-202 | haveLetters equals the found-all flag |
| Scrabulous.Scrabulous.RemoveLetters | scrabulous.go:247-260 | fails and leaves the rack when a letter is missing, otherwise the rack becomes the counts left; nothing else changes |
| Scrabulous.Scrabulous.ResetLetters | scrabulous.go:204-227 | rack plus bag is conserved and the rack ends with min(7, total) tiles; with more than seven tiles the last letter returned stays in the bag; nothing else changes |
| Scrabulous.Scrabulous.ClearGame | scrabulous.go:237-243 | a fresh board and the full 100-tile bag, no placed or pending words, no deadline, idle, not complete; the rack is untouched |
| Scrabulous.Scrabulous.ResetGame | scrabulous.go:236-245 | a fresh board, no words, idle; rack plus bag hold the distribution plus the old rack's tiles, seven on the rack and 100 + old rack - 7 in the bag |
| Scrabulous.Scrabulous.CreatePendingWord | scrabulous.go:86-123 | validation uses firstWord iff no word is placed; a refused word or missing letters change nothing; otherwise board and rack stay and the word is queued as Queued states |
| Scrabulous.Scrabulous.Enqueue | scrabulous.go:100-122 | the first pending word opens the window; the word is queued, marked stolen iff words were pending, and returned only when it beats every pending word |
| Scrabulous.Scrabulous.PickBest | scrabulous.go:126-134 | nothing iff nothing is pending, else the last pending word, whose score is the maximum |
| Scrabulous.Scrabulous.PlacePendingWord | scrabulous.go:125-156 | nothing pending fails and changes nothing; otherwise a highest-scoring word is written, and on success it joins the placed words, its spent letters leave the rack, the rack is redrawn, completion is set iff rack and bag are empty, and the queue is cleared |
| Scrabulous.Scrabulous.TryPlacePendingWord | scrabulous.go:79-84 | before the deadline nothing changes; after it the pending word is placed |
| Scrabulous.Scrabulous.GetScores | scrabulous.go:158-185 | one entry per distinct submitter with its word count and points, sorted by non-increasing score, sums equal to the placed words and their total |

## Left out

- render.go, printer.go and util.go: drawing and diagnostic printing, no game logic.
- scrabble.go: an older snapshot of the same engine that redeclares board.go's and
  classic.go's types; board.go's and classic.go's versions are modelled.
- board_test.go is not part of this model as a file; four of its expected values are the
  `Grid.HorizontalStep*` example lemmas.
- example/ programs: the driver scenario appears only as the FOOF scoring lemmas.
- `Cell.String`, `IndexString`, `LetterScoreString` and `Word.String`: text formatting only.
- Error texts of `fmt.Errorf`: each error is a datatype variant.
- Board.constructor: `NewBoard(0)` is a legal call but gives a board that is not well
  formed; the model allows it, and Scrabulous' constructor uses it as a placeholder in place
  of Go's nil board until ResetGame.
- `time.Now` and `time.Duration`: clock readings and the steal time are integers, and the
  current time is a parameter of StartStealTime, CreatePendingWord and TryPlacePendingWord.
- `rand.IntN`: the drawn index is any index the source's range allows (a `:|` choice).
  `IntN(0)` panics; the model returns the DrawFromLastTile error.
- Go's `int` and `int64` overflow is not modelled; ids, scores and counts are unbounded.
  The int32 range of `ParsePlacement` is modelled.
- `strconv.ParseInt`'s different error kinds (syntax, range) are one BadCellIndex error.
- Runes are `char`s and `strings.ToUpper` works on ASCII letters only. board.go:113 ranges
  over runes and board.go:237 over byte offsets; they agree for ASCII words. Words with
  multi-byte runes, for which placeWord can step past a validated placement and fail after
  the letters are spent, are not modelled.
- Map iteration order in `makeLetterBag` and `removeLetters`: bags and racks are stated as
  multisets, and the order of `MakeLetterBag` and `RackOf` is left open.
- The `fmt.Printf` in PlacePendingWord when removeLetters fails is left out; the failure is
  ignored, as in the source.
- Pointers to `Word` and `Score` records are modelled as values; Go code that aliases them
  outside the game is not modelled.
- Scrabulous.SortByScore: `slices.SortFunc` is modelled as an insertion sort. The contract
  states order and permutation, but not the order in which equal scores come out, since
  the source does not fix it.
- Scrabulous.Scrabulous.TryPlacePendingWord: its contract states only that the call after
  the deadline empties the queue and adds one placed word when it succeeds; the full outcome
  is PlacePendingWord's contract.
- Rack.UsedWithBlanks: stated for wanted letters that are not blanks themselves. A wanted
  `_` takes a blank tile either way; `Rack.UsedExact` covers it when the rack holds every
  wanted tile, and the shortfall count for wanted blanks in general is not stated.
- A placement's direction is a plain Go string type (`Orientation`, board.go:29); the
  model's `Orientation` has only Across and Down. A `Placement` built by hand with any other
  string steps like Across but takes the non-Across chain branches; `ParsePlacement` never
  produces one.
