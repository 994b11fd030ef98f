/** PlacementResult.Score of board.go: letter and word multipliers over the placed word and the
    chains it touches, and the bonus for spending a full rack. */
module Scoring {
  import opened Letters
  import opened Grid
  import opened Validation

  /** What a letter multiplier square does to the letter on it. */
  function LetterFactor(b: Bonus): nat {
    match b
    case DoubleLetter => 2
    case TripleLetter => 3
    case _ => 1
  }

  /** What a word multiplier square does to the chain through it. */
  function WordFactor(b: Bonus): nat {
    match b
    case DoubleWord => 2
    case TripleWord => 3
    case _ => 1
  }

  /** The points a cell adds to its chain before word multipliers. */
  function LetterValue(c: Cell): (v: nat)
    ensures v == LetterScore(c.ch) * LetterFactor(c.bonus)
    ensures v <= 30
  {
    var s := LetterScore(c.ch);
    match c.bonus
    case DoubleLetter => s * 2
    case TripleLetter => s * 3
    case _ => s
  }

  /** The letter values of a chain, added left to right. */
  function LetterSum(w: seq<Cell>): nat {
    if w == [] then 0 else LetterSum(w[..|w| - 1]) + LetterValue(w[|w| - 1])
  }

  /** The word multiplier squares of a chain, in order (wordBonuses). */
  function WordBonuses(w: seq<Cell>): seq<Bonus> {
    if w == [] then []
    else
      var b := w[|w| - 1].bonus;
      WordBonuses(w[..|w| - 1]) + (if b == DoubleWord || b == TripleWord then [b] else [])
  }

  /** The product of the word multipliers of a list of bonuses. */
  function Multiplier(bs: seq<Bonus>): nat {
    if bs == [] then 1 else Multiplier(bs[..|bs| - 1]) * WordFactor(bs[|bs| - 1])
  }

  /** What a chain scores: nothing for a single cell, otherwise its letter values times every
      word multiplier on it. */
  function ChainScore(w: seq<Cell>): nat {
    if |w| == 1 then 0 else LetterSum(w) * Multiplier(WordBonuses(w))
  }

  /** The chains a result scores: the placed cells first, then the touching chains. */
  function Chains(r: PlacementResult): seq<seq<Cell>> {
    [r.cells] + r.touching
  }

  /** The sum of the chain scores of a list of chains. */
  function ChainsTotal(ws: seq<seq<Cell>>): nat {
    if ws == [] then 0 else ChainsTotal(ws[..|ws| - 1]) + ChainScore(ws[|ws| - 1])
  }

  /** The bonus for spending exactly a full rack. */
  function RackBonus(r: PlacementResult): nat {
    if |r.lettersSpent| == NumPlayerLetters then 50 else 0
  }

  /** The score of a placement. */
  function ScoreOf(r: PlacementResult): nat {
    ChainsTotal(Chains(r)) + RackBonus(r)
  }

  // ----- what the score means -----

  function Pow(b: nat, e: nat): nat {
    if e == 0 then 1 else b * Pow(b, e - 1)
  }

  /** How many cells of a chain carry bonus k. */
  function CountBonus(w: seq<Cell>, k: Bonus): nat {
    if w == [] then 0 else CountBonus(w[..|w| - 1], k) + (if w[|w| - 1].bonus == k then 1 else 0)
  }

  lemma {:induction false} LetterSumAppend(a: seq<Cell>, b: seq<Cell>)
    ensures LetterSum(a + b) == LetterSum(a) + LetterSum(b)
    decreases |b|
  {
    if b != [] {
      var b' := b[..|b| - 1];
      assert (a + b)[..|a + b| - 1] == a + b';
      LetterSumAppend(a, b');
    } else {
      assert a + b == a;
    }
  }

  lemma MulAssoc(x: int, y: int, z: int)
    ensures x * y * z == x * (y * z)
  {
  }

  lemma {:induction false} MultiplierAppend(a: seq<Bonus>, b: seq<Bonus>)
    ensures Multiplier(a + b) == Multiplier(a) * Multiplier(b)
    decreases |b|
  {
    if b != [] {
      var b' := b[..|b| - 1];
      var f := WordFactor(b[|b| - 1]);
      assert (a + b)[..|a + b| - 1] == a + b';
      assert (a + b)[|a + b| - 1] == b[|b| - 1];
      MultiplierAppend(a, b');
      assert Multiplier(a + b) == Multiplier(a + b') * f;
      assert Multiplier(b) == Multiplier(b') * f;
      MulAssoc(Multiplier(a), Multiplier(b'), f);
    } else {
      assert a + b == a;
    }
  }

  lemma {:induction false} WordBonusesAppend(a: seq<Cell>, b: seq<Cell>)
    ensures WordBonuses(a + b) == WordBonuses(a) + WordBonuses(b)
    decreases |b|
  {
    if b != [] {
      var b' := b[..|b| - 1];
      assert (a + b)[..|a + b| - 1] == a + b';
      WordBonusesAppend(a, b');
    } else {
      assert a + b == a;
    }
  }

  /** The letter values and the word multipliers of two chains put end to end combine. */
  lemma ChainAppend(a: seq<Cell>, b: seq<Cell>)
    ensures LetterSum(a + b) == LetterSum(a) + LetterSum(b)
    ensures Multiplier(WordBonuses(a + b)) == Multiplier(WordBonuses(a)) * Multiplier(WordBonuses(b))
  {
    LetterSumAppend(a, b);
    WordBonusesAppend(a, b);
    MultiplierAppend(WordBonuses(a), WordBonuses(b));
  }

  /** Every double-word square on a chain doubles it and every triple-word square triples it,
      once per square. */
  lemma {:induction false} MultiplierCounts(w: seq<Cell>)
    ensures Multiplier(WordBonuses(w)) == Pow(2, CountBonus(w, DoubleWord)) * Pow(3, CountBonus(w, TripleWord))
    decreases |w|
  {
    if w != [] {
      var w' := w[..|w| - 1];
      var b := w[|w| - 1].bonus;
      MultiplierCounts(w');
      var bs := if b == DoubleWord || b == TripleWord then [b] else [];
      assert WordBonuses(w) == WordBonuses(w') + bs;
      MultiplierAppend(WordBonuses(w'), bs);
      var d, t := Pow(2, CountBonus(w', DoubleWord)), Pow(3, CountBonus(w', TripleWord));
      assert Multiplier(WordBonuses(w)) == d * t * Multiplier(bs);
      if b == DoubleWord {
        assert Multiplier(bs) == 2;
        assert Pow(2, CountBonus(w, DoubleWord)) == 2 * d;
        assert Pow(3, CountBonus(w, TripleWord)) == t;
        MulSwap(d, t, 2);
      } else if b == TripleWord {
        assert Multiplier(bs) == 3;
        assert Pow(2, CountBonus(w, DoubleWord)) == d;
        assert Pow(3, CountBonus(w, TripleWord)) == 3 * t;
        MulAssoc(d, t, 3);
      } else {
        assert Multiplier(bs) == 1;
      }
    }
  }

  lemma MulSwap(x: int, y: int, z: int)
    ensures x * y * z == (z * x) * y
  {
  }

  /** A chain without letter or word multiplier squares scores its plain tile values. */
  lemma {:induction false} PlainChain(w: seq<Cell>)
    requires forall i :: 0 <= i < |w| ==> w[i].bonus == NoBonus
    ensures CountBonus(w, DoubleWord) == 0 && CountBonus(w, TripleWord) == 0
    ensures LetterSum(w) == PlainSum(w)
    decreases |w|
  {
    if w != [] {
      PlainChain(w[..|w| - 1]);
    }
  }

  /** The tile values of a chain without any multiplier. */
  function PlainSum(w: seq<Cell>): nat {
    if w == [] then 0 else PlainSum(w[..|w| - 1]) + LetterScore(w[|w| - 1].ch)
  }

  lemma {:induction false} ChainsTotalAppend(a: seq<seq<Cell>>, b: seq<seq<Cell>>)
    ensures ChainsTotal(a + b) == ChainsTotal(a) + ChainsTotal(b)
    decreases |b|
  {
    if b != [] {
      var b' := b[..|b| - 1];
      assert (a + b)[..|a + b| - 1] == a + b';
      ChainsTotalAppend(a, b');
    } else {
      assert a + b == a;
    }
  }

  /** A touching chain of a single cell adds nothing to the score. */
  lemma SingleCellChainIgnored(r: PlacementResult, c: Cell)
    ensures ScoreOf(PlacementResult(r.cells, r.lettersSpent, r.touching + [[c]])) == ScoreOf(r)
  {
    var r' := PlacementResult(r.cells, r.lettersSpent, r.touching + [[c]]);
    assert Chains(r') == Chains(r) + [[c]];
    ChainsTotalAppend(Chains(r), [[c]]);
    assert ChainsTotal([[c]]) == ChainsTotal([]) + ChainScore([c]);
  }

  /** Spending exactly a full rack is worth 50 points over the same chains, and no other number
      of spent letters earns anything. */
  lemma RackBonusExact(r: PlacementResult, r': PlacementResult)
    requires r.cells == r'.cells && r.touching == r'.touching
    ensures |r.lettersSpent| == NumPlayerLetters && |r'.lettersSpent| != NumPlayerLetters ==>
      ScoreOf(r) == ScoreOf(r') + 50
    ensures (|r.lettersSpent| == NumPlayerLetters) == (|r'.lettersSpent| == NumPlayerLetters) ==>
      ScoreOf(r) == ScoreOf(r')
  {
  }

  /** The vertical chain of an across word, as built, holds the board's empty target cell
      followed by the new cell on the same square: the empty cell adds no letter value, but a
      word multiplier on that square is applied twice. */
  lemma RepeatedTargetCell(up: seq<Cell>, cell: Cell, thisCell: Cell, down: seq<Cell>)
    requires cell.Empty() && thisCell.bonus == cell.bonus
    ensures LetterSum(up + [cell] + [thisCell] + down) == LetterSum(up) + LetterValue(thisCell) + LetterSum(down)
    ensures Multiplier(WordBonuses(up + [cell] + [thisCell] + down)) ==
      Multiplier(WordBonuses(up)) * WordFactor(cell.bonus) * WordFactor(cell.bonus) * Multiplier(WordBonuses(down))
  {
    ChainAppend(up, [cell]);
    ChainAppend(up + [cell], [thisCell]);
    ChainAppend(up + [cell] + [thisCell], down);
    OneCell(cell);
    OneCell(thisCell);
  }

  /** A chain of one cell: its letter value and its square's word multiplier. */
  lemma OneCell(c: Cell)
    ensures LetterSum([c]) == LetterValue(c)
    ensures WordBonuses([c]) == if c.bonus == DoubleWord || c.bonus == TripleWord then [c.bonus] else []
    ensures Multiplier(WordBonuses([c])) == WordFactor(c.bonus)
  {
    assert [c][..0] == [];
    var bs := if c.bonus == DoubleWord || c.bonus == TripleWord then [c.bonus] else [];
    assert WordBonuses([c]) == bs;
    assert bs == [] || bs[..0] == [];
  }

  /** Letter values and word multiplier squares of short chains, cell by cell. */
  lemma TwoCells(a: Cell, b: Cell)
    ensures LetterSum([a, b]) == LetterValue(a) + LetterValue(b)
    ensures WordBonuses([a, b]) == WordBonuses([a]) + WordBonuses([b])
  {
    LetterSumAppend([a], [b]);
    WordBonusesAppend([a], [b]);
    assert [a] + [b] == [a, b];
    OneCell(a);
    OneCell(b);
  }

  lemma ThreeCells(a: Cell, b: Cell, c: Cell)
    ensures LetterSum([a, b, c]) == LetterValue(a) + LetterValue(b) + LetterValue(c)
    ensures WordBonuses([a, b, c]) == WordBonuses([a]) + WordBonuses([b]) + WordBonuses([c])
  {
    TwoCells(a, b);
    assert [a, b, c][..2] == [a, b];
    assert [c][..0] == [];
  }

  lemma FourCells(a: Cell, b: Cell, c: Cell, d: Cell)
    ensures LetterSum([a, b, c, d]) == LetterValue(a) + LetterValue(b) + LetterValue(c) + LetterValue(d)
    ensures WordBonuses([a, b, c, d]) == WordBonuses([a]) + WordBonuses([b]) + WordBonuses([c]) + WordBonuses([d])
  {
    ThreeCells(a, b, c);
    assert [a, b, c, d][..3] == [a, b, c];
    OneCell(d);
    assert [d][..0] == [];
  }

  /** The score of a result with no touching chain: its own chain plus the rack bonus. */
  lemma LoneChain(r: PlacementResult)
    requires r.touching == []
    ensures ScoreOf(r) == ChainScore(r.cells) + RackBonus(r)
  {
    var ws := [r.cells];
    assert Chains(r) == ws;
    assert ws[..|ws| - 1] == [];
    assert ChainsTotal(ws) == ChainsTotal([]) + ChainScore(r.cells);
  }

  /** The opening word FOOF across cells 113-116 of the standard board, none of which has a
      bonus. */
  const Foof: seq<Cell> :=
    [Cell(113, 'F', NoBonus), Cell(114, 'O', NoBonus), Cell(115, 'O', NoBonus), Cell(116, 'F', NoBonus)]

  /** FOOF on the board's own squares is worth 4 + 1 + 1 + 4. */
  lemma FoofScores()
    ensures BonusAt(113) == NoBonus && BonusAt(114) == NoBonus && BonusAt(115) == NoBonus && BonusAt(116) == NoBonus
    ensures ScoreOf(PlacementResult(Foof, "FOOF", [])) == 10
  {
    FourCells(Foof[0], Foof[1], Foof[2], Foof[3]);
    assert Foof == [Foof[0], Foof[1], Foof[2], Foof[3]];
    LoneChain(PlacementResult(Foof, "FOOF", []));
  }

  /** A double-word square under the last F doubles FOOF to 20. */
  lemma FoofDoubleWord()
    ensures ScoreOf(PlacementResult(Foof[3 := Cell(116, 'F', DoubleWord)], "FOOF", [])) == 20
  {
    var f, o, o', fd := Foof[0], Foof[1], Foof[2], Cell(116, 'F', DoubleWord);
    FourCells(f, o, o', fd);
    OneCell(f);
    OneCell(o);
    OneCell(o');
    OneCell(fd);
    assert WordBonuses([f, o, o', fd]) == [DoubleWord];
    assert Multiplier([DoubleWord]) == 2;
    assert Foof[3 := fd] == [f, o, o', fd];
    LoneChain(PlacementResult([f, o, o', fd], "FOOF", []));
  }

  /** A double-letter square under the first F as well makes it (8 + 1 + 1 + 4) * 2 = 28. */
  lemma FoofDoubleLetterAndWord()
    ensures ScoreOf(PlacementResult(Foof[0 := Cell(113, 'F', DoubleLetter)][3 := Cell(116, 'F', DoubleWord)], "FOOF", [])) == 28
  {
    var fl, o, o', fd := Cell(113, 'F', DoubleLetter), Foof[1], Foof[2], Cell(116, 'F', DoubleWord);
    FourCells(fl, o, o', fd);
    OneCell(fl);
    OneCell(o);
    OneCell(o');
    OneCell(fd);
    assert WordBonuses([fl, o, o', fd]) == [DoubleWord];
    assert Multiplier([DoubleWord]) == 2;
    assert Foof[0 := fl][3 := fd] == [fl, o, o', fd];
    LoneChain(PlacementResult([fl, o, o', fd], "FOOF", []));
  }

  /** The repeated target cell in practice: B placed under A on a double-word square scores
      (1 + 3) * 2 * 2 = 16 rather than 8. */
  lemma RepeatedTargetExample()
    ensures ChainScore([Cell(98, 'A', NoBonus), Cell(113, EmptyChar, DoubleWord), Cell(113, 'B', DoubleWord)]) == 16
  {
    var a, e, b := Cell(98, 'A', NoBonus), Cell(113, EmptyChar, DoubleWord), Cell(113, 'B', DoubleWord);
    RepeatedTargetCell([a], e, b, []);
    OneCell(a);
    assert [a] + [e] + [b] + [] == [a, e, b];
    assert LetterSum([]) == 0 && Multiplier(WordBonuses([])) == 1;
  }

  /** The same chain without the repeated cell scores (1 + 3) * 2 = 8. */
  lemma SingleTargetExample()
    ensures ChainScore([Cell(98, 'A', NoBonus), Cell(113, 'B', DoubleWord)]) == 8
  {
    var a, b := Cell(98, 'A', NoBonus), Cell(113, 'B', DoubleWord);
    TwoCells(a, b);
    OneCell(a);
    OneCell(b);
    MultiplierAppend(WordBonuses([a]), WordBonuses([b]));
  }

  /** The first pass of Score over one chain: letter values added, word multipliers collected. */
  method AddLetters(word: seq<Cell>) returns (wordTotal: int, wordBonuses: seq<Bonus>)
    ensures wordTotal == LetterSum(word) && wordBonuses == WordBonuses(word)
  {
    wordTotal := 0;
    wordBonuses := [];
    var j := 0;
    while j < |word|
      invariant 0 <= j <= |word|
      invariant wordTotal == LetterSum(word[..j])
      invariant wordBonuses == WordBonuses(word[..j])
    {
      var c := word[j];
      var letterScore := LetterScore(c.ch);
      match c.bonus {
        case NoBonus =>
          wordTotal := wordTotal + letterScore;
        case DoubleLetter =>
          wordTotal := wordTotal + letterScore * 2;
        case TripleLetter =>
          wordTotal := wordTotal + letterScore * 3;
        case DoubleWord =>
          wordTotal := wordTotal + letterScore;
          wordBonuses := wordBonuses + [c.bonus];
        case TripleWord =>
          wordTotal := wordTotal + letterScore;
          wordBonuses := wordBonuses + [c.bonus];
      }
      assert word[..j + 1][..j] == word[..j];
      j := j + 1;
    }
    assert word[..j] == word;
  }

  /** The second pass of Score over one chain: each collected word multiplier applied in turn. */
  method ApplyBonuses(sum: int, wordBonuses: seq<Bonus>) returns (wordTotal: int)
    ensures wordTotal == sum * Multiplier(wordBonuses)
  {
    wordTotal := sum;
    var k := 0;
    while k < |wordBonuses|
      invariant 0 <= k <= |wordBonuses|
      invariant wordTotal == sum * Multiplier(wordBonuses[..k])
    {
      var m := Multiplier(wordBonuses[..k]);
      assert wordBonuses[..k + 1][..k] == wordBonuses[..k];
      assert Multiplier(wordBonuses[..k + 1]) == m * WordFactor(wordBonuses[k]);
      match wordBonuses[k] {
        case DoubleWord =>
          assert sum * m * 2 == sum * (m * 2);
          wordTotal := wordTotal * 2;
        case TripleWord =>
          assert sum * m * 3 == sum * (m * 3);
          wordTotal := wordTotal * 3;
        case _ =>
      }
      k := k + 1;
    }
    assert wordBonuses[..k] == wordBonuses;
  }

  /** PlacementResult.Score: every chain but those of one cell, plus the full-rack bonus. */
  method Score(r: PlacementResult) returns (total: int)
    ensures total == ScoreOf(r)
  {
    var words := [r.cells];
    if |r.touching| > 0 {
      words := words + r.touching;
    }
    assert words == Chains(r);
    total := 0;
    var w := 0;
    while w < |words|
      invariant 0 <= w <= |words|
      invariant total == ChainsTotal(words[..w])
    {
      var word := words[w];
      assert words[..w + 1][..w] == words[..w];
      if |word| == 1 {
        w := w + 1;
        continue;
      }
      var wordTotal, wordBonuses := AddLetters(word);
      wordTotal := ApplyBonuses(wordTotal, wordBonuses);
      total := total + wordTotal;
      w := w + 1;
    }
    assert words[..w] == words;
    if |r.lettersSpent| == NumPlayerLetters {
      total := total + 50;
    }
  }
}
