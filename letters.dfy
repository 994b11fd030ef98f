/** Constant tables of the game (letters.go): tile scores, the tile distribution of a fresh bag,
    the bonus-square layout of the standard 15x15 board, and bag construction. */
module Letters {

  /** The permanent bonus of a board square (CellBonusType). */
  datatype Bonus = NoBonus | DoubleLetter | DoubleWord | TripleLetter | TripleWord

  /** The blank tile, which can stand for any letter and scores nothing. */
  const Blank: char := '_'

  /** Every character that is a key of the score and distribution tables. */
  const Alphabet: seq<char> := "ABCDEFGHIJKLMNOPQRSTUVWXYZ_"

  /** How many tiles a full rack holds (NumPlayerLetters of classic.go). */
  const NumPlayerLetters: nat := 7

  /** The value of a tile (LetterScores); a character outside the table, such as the empty-cell
      character 0, reads as the map's zero default. */
  function LetterScore(c: char): (s: int)
    ensures 'A' <= c <= 'Z' ==> 1 <= s <= 10
    ensures !('A' <= c <= 'Z') ==> s == 0
  {
    match c
    case 'A' => 1 case 'B' => 3 case 'C' => 3 case 'D' => 2 case 'E' => 1 case 'F' => 4
    case 'G' => 2 case 'H' => 4 case 'I' => 1 case 'J' => 8 case 'K' => 5 case 'L' => 1
    case 'M' => 3 case 'N' => 1 case 'O' => 1 case 'P' => 3 case 'Q' => 10 case 'R' => 1
    case 'S' => 1 case 'T' => 1 case 'U' => 1 case 'V' => 4 case 'W' => 4 case 'X' => 8
    case 'Y' => 4 case 'Z' => 10 case '_' => 0
    case _ => 0
  }

  /** How many tiles of character c a fresh bag holds (LetterDistribution); zero for characters
      outside the table. */
  function TileCount(c: char): nat {
    match c
    case 'A' => 9 case 'B' => 2 case 'C' => 2 case 'D' => 4 case 'E' => 12 case 'F' => 2
    case 'G' => 3 case 'H' => 2 case 'I' => 9 case 'J' => 1 case 'K' => 1 case 'L' => 4
    case 'M' => 2 case 'N' => 6 case 'O' => 8 case 'P' => 2 case 'Q' => 1 case 'R' => 6
    case 'S' => 4 case 'T' => 6 case 'U' => 4 case 'V' => 2 case 'W' => 2 case 'X' => 1
    case 'Y' => 2 case 'Z' => 1 case '_' => 2
    case _ => 0
  }

  /** The keys of the distribution table. */
  const DistributionKeys: set<char> := set c | c in Alphabet

  /** The distribution gives a positive count exactly to its keys. */
  lemma DistributionKeysCounted()
    ensures forall c :: TileCount(c) > 0 <==> c in DistributionKeys
  {
  }

  /** The bonus of cell id on a fresh board: the entry of StandardBonusMap, or no bonus when id
      is not one of its keys. */
  function BonusAt(id: int): Bonus {
    match id
    case 1 => TripleWord case 8 => TripleWord case 15 => TripleWord case 106 => TripleWord
    case 120 => TripleWord case 211 => TripleWord case 218 => TripleWord case 225 => TripleWord
    case 21 => TripleLetter case 25 => TripleLetter case 81 => TripleLetter case 85 => TripleLetter
    case 141 => TripleLetter case 145 => TripleLetter case 201 => TripleLetter case 205 => TripleLetter
    case 77 => TripleLetter case 137 => TripleLetter case 89 => TripleLetter case 149 => TripleLetter
    case 17 => DoubleWord case 33 => DoubleWord case 49 => DoubleWord case 65 => DoubleWord
    case 29 => DoubleWord case 43 => DoubleWord case 57 => DoubleWord case 71 => DoubleWord
    case 197 => DoubleWord case 183 => DoubleWord case 169 => DoubleWord case 155 => DoubleWord
    case 209 => DoubleWord case 193 => DoubleWord case 177 => DoubleWord case 161 => DoubleWord
    case 4 => DoubleLetter case 12 => DoubleLetter case 214 => DoubleLetter case 222 => DoubleLetter
    case 46 => DoubleLetter case 166 => DoubleLetter case 60 => DoubleLetter case 180 => DoubleLetter
    case 93 => DoubleLetter case 123 => DoubleLetter case 109 => DoubleLetter case 103 => DoubleLetter
    case 133 => DoubleLetter case 117 => DoubleLetter case 97 => DoubleLetter case 99 => DoubleLetter
    case 127 => DoubleLetter case 129 => DoubleLetter case 37 => DoubleLetter case 53 => DoubleLetter
    case 39 => DoubleLetter case 187 => DoubleLetter case 189 => DoubleLetter case 173 => DoubleLetter
    case _ => NoBonus
  }

  /** Every bonus square is on the 15x15 board, and the centre square 113 has none. */
  lemma BonusSquaresOnBoard()
    ensures forall id :: BonusAt(id) != NoBonus ==> 1 <= id <= 225
    ensures BonusAt(113) == NoBonus
  {
  }

  /** The squares of each kind of bonus in increasing order. */
  function Squares(k: Bonus): seq<int> {
    match k
    case TripleWord => [1, 8, 15, 106, 120, 211, 218, 225]
    case TripleLetter => [21, 25, 77, 81, 85, 89, 137, 141, 145, 149, 201, 205]
    case DoubleWord => [17, 29, 33, 43, 49, 57, 65, 71, 155, 161, 169, 177, 183, 193, 197, 209]
    case DoubleLetter =>
      [4, 12, 37, 39, 46, 53, 60, 93, 97, 99, 103, 109, 117, 123, 127, 129, 133, 166, 173, 180, 187, 189, 214, 222]
    case NoBonus => []
  }

  predicate Increasing(s: seq<int>) {
    forall i :: 0 <= i < |s| - 1 ==> s[i] < s[i + 1]
  }

  lemma {:induction false} IncreasingHead(s: seq<int>, j: int)
    requires Increasing(s) && 0 < j < |s|
    ensures s[0] < s[j]
  {
    if j > 1 {
      IncreasingHead(s[1..], j - 1);
    }
  }

  /** An increasing sequence has no repeated element, so it lists |s| distinct values. */
  lemma {:induction false} IncreasingDistinct(s: seq<int>)
    requires Increasing(s)
    ensures |set x | x in s| == |s|
  {
    if s != [] {
      IncreasingDistinct(s[1..]);
      assert (set x | x in s) == {s[0]} + (set x | x in s[1..]);
      forall j | 1 <= j < |s| ensures s[j] != s[0] {
        IncreasingHead(s, j);
      }
      assert s[0] !in (set x | x in s[1..]);
    }
  }

  lemma TripleWordSquaresExact()
    ensures forall id :: BonusAt(id) == TripleWord <==> id in Squares(TripleWord)
  {
  }

  lemma TripleLetterSquaresExact()
    ensures forall id :: BonusAt(id) == TripleLetter <==> id in Squares(TripleLetter)
  {
  }

  lemma DoubleWordSquaresExact()
    ensures forall id :: BonusAt(id) == DoubleWord <==> id in Squares(DoubleWord)
  {
  }

  lemma DoubleLetterSquaresExact()
    ensures forall id :: BonusAt(id) == DoubleLetter <==> id in Squares(DoubleLetter)
  {
  }

  lemma SquaresIncreasing(k: Bonus)
    ensures Increasing(Squares(k))
  {
    match k
    case TripleWord => TripleWordIncreasing();
    case TripleLetter => TripleLetterIncreasing();
    case DoubleWord => DoubleWordIncreasing();
    case DoubleLetter => DoubleLetterIncreasing();
    case NoBonus =>
  }

  lemma TripleWordIncreasing() ensures Increasing(Squares(TripleWord)) {}
  lemma TripleLetterIncreasing() ensures Increasing(Squares(TripleLetter)) {}
  lemma DoubleWordIncreasing() ensures Increasing(Squares(DoubleWord)) {}
  lemma DoubleLetterIncreasing() ensures Increasing(Squares(DoubleLetter)) {}

  /** The set of squares carrying bonus k. */
  function SquareSet(k: Bonus): set<int> {
    set id | id in Squares(k)
  }

  /** The board has 8 triple-word, 12 triple-letter, 16 double-word and 24 double-letter
      squares: the squares with bonus k are exactly those of SquareSet(k), and there are that
      many of them. */
  lemma BonusCounts()
    ensures forall k, id :: k != NoBonus ==> (BonusAt(id) == k <==> id in SquareSet(k))
    ensures |SquareSet(TripleWord)| == 8 && |SquareSet(TripleLetter)| == 12
    ensures |SquareSet(DoubleWord)| == 16 && |SquareSet(DoubleLetter)| == 24
  {
    TripleWordSquaresExact();
    TripleLetterSquaresExact();
    DoubleWordSquaresExact();
    DoubleLetterSquaresExact();
    forall k ensures |SquareSet(k)| == |Squares(k)| {
      SquaresIncreasing(k);
      IncreasingDistinct(Squares(k));
    }
  }

  /** The layout is symmetric under the 180-degree rotation of the board, id -> 226 - id
      (for example 4 and 222, 21 and 205, 17 and 209, 106 and 120). */
  lemma BonusRotation()
    ensures forall id :: BonusAt(226 - id) == BonusAt(id)
  {
  }

  /** A run of num copies of letter (repeatLetter). */
  method RepeatLetter(letter: char, num: nat) returns (letters: seq<char>)
    ensures |letters| == num
    ensures forall i :: 0 <= i < num ==> letters[i] == letter
  {
    var a := new char[num];
    for i := 0 to num
      invariant forall j :: 0 <= j < i ==> a[j] == letter
    {
      a[i] := letter;
    }
    letters := a[..];
  }

  /** A sequence whose every element is x holds |s| copies of x and nothing else. */
  lemma {:induction false} UniformCount(s: seq<char>, x: char, c: char)
    requires forall i :: 0 <= i < |s| ==> s[i] == x
    ensures multiset(s)[c] == if c == x then |s| else 0
  {
    if s != [] {
      UniformCount(s[1..], x, c);
      assert s == [s[0]] + s[1..];
    }
  }

  /** Keys in strictly increasing order, hence without repetition. */
  predicate Ascending(keys: seq<char>) {
    forall i :: 0 <= i < |keys| - 1 ==> keys[i] < keys[i + 1]
  }

  lemma {:induction false} AscendingLast(keys: seq<char>, j: int)
    requires Ascending(keys) && 0 <= j < |keys| - 1
    ensures keys[j] < keys[|keys| - 1]
  {
    if j < |keys| - 2 {
      AscendingLast(keys[..|keys| - 1], j);
    }
  }

  /** The tiles of the first n keys, key after key, as repeatLetter lays them out. */
  function TilesOf(keys: seq<char>, n: nat): seq<char>
    requires n <= |keys|
  {
    if n == 0 then [] else TilesOf(keys, n - 1) + seq(TileCount(keys[n - 1]), _ => keys[n - 1])
  }

  /** The number of tiles of the first n keys. */
  function TileTotal(keys: seq<char>, n: nat): nat
    requires n <= |keys|
  {
    if n == 0 then 0 else TileTotal(keys, n - 1) + TileCount(keys[n - 1])
  }

  lemma {:induction false} TilesOfCount(keys: seq<char>, n: nat, c: char)
    requires n <= |keys| && Ascending(keys[..n])
    ensures multiset(TilesOf(keys, n))[c] == if c in keys[..n] then TileCount(c) else 0
  {
    if n > 0 {
      var last := keys[n - 1];
      var run := seq(TileCount(last), _ => last);
      assert keys[..n - 1] == keys[..n][..n - 1];
      TilesOfCount(keys, n - 1, c);
      UniformCount(run, last, c);
      assert TilesOf(keys, n) == TilesOf(keys, n - 1) + run;
      assert keys[..n] == keys[..n - 1] + [last];
      if c == last {
        LastIsNew(keys[..n]);
      }
    }
  }

  lemma LastIsNew(keys: seq<char>)
    requires |keys| > 0 && Ascending(keys)
    ensures keys[|keys| - 1] !in keys[..|keys| - 1]
  {
    forall j | 0 <= j < |keys| - 1 ensures keys[j] != keys[|keys| - 1] {
      AscendingLast(keys, j);
    }
  }

  lemma {:induction false} TilesOfLength(keys: seq<char>, n: nat)
    requires n <= |keys|
    ensures |TilesOf(keys, n)| == TileTotal(keys, n)
  {
    if n > 0 {
      TilesOfLength(keys, n - 1);
    }
  }

  lemma Tiles3() ensures TileTotal(Alphabet, 3) == 13 {}
  lemma Tiles6() ensures TileTotal(Alphabet, 6) == 31 { Tiles3(); }
  lemma Tiles9() ensures TileTotal(Alphabet, 9) == 45 { Tiles6(); }
  lemma Tiles12() ensures TileTotal(Alphabet, 12) == 51 { Tiles9(); }
  lemma Tiles15() ensures TileTotal(Alphabet, 15) == 67 { Tiles12(); }
  lemma Tiles18() ensures TileTotal(Alphabet, 18) == 76 { Tiles15(); }
  lemma Tiles21() ensures TileTotal(Alphabet, 21) == 90 { Tiles18(); }
  lemma Tiles24() ensures TileTotal(Alphabet, 24) == 95 { Tiles21(); }

  /** The distribution holds 100 tiles in all. */
  lemma DistributionTotal()
    ensures TileTotal(Alphabet, |Alphabet|) == 100
  {
    assert |Alphabet| == 27;
    Tiles24();
  }

  lemma AlphabetAscending() ensures Ascending(Alphabet) {}

  /** The tiles of the distribution, letter after letter in alphabetical order: a reference bag
      with the table's counts and 100 tiles. */
  lemma ReferenceBag()
    ensures forall c :: multiset(TilesOf(Alphabet, |Alphabet|))[c] == TileCount(c)
    ensures |TilesOf(Alphabet, |Alphabet|)| == 100
  {
    DistributionTotal();
    DistributionKeysCounted();
    AlphabetAscending();
    assert Alphabet[..|Alphabet|] == Alphabet;
    forall c ensures multiset(TilesOf(Alphabet, |Alphabet|))[c] == TileCount(c) {
      TilesOfCount(Alphabet, |Alphabet|, c);
    }
    TilesOfLength(Alphabet, |Alphabet|);
  }

  /** A fresh bag: for every letter of the distribution, that many tiles, in the (unspecified)
      iteration order of the distribution map (makeLetterBag). */
  method MakeLetterBag() returns (bag: seq<char>)
    ensures forall c :: multiset(bag)[c] == TileCount(c)
    ensures |bag| == 100 && multiset(bag)[Blank] == 2
  {
    bag := [];
    var keys := DistributionKeys;
    while keys != {}
      invariant keys <= DistributionKeys && CountsSoFar(bag, keys)
      decreases keys
    {
      var letter :| letter in keys;
      var run := RepeatLetter(letter, TileCount(letter));
      AddRun(bag, keys, letter, run);
      bag := bag + run;
      keys := keys - {letter};
    }
    BagDone(bag);
  }

  /** Once every key is drawn the bag holds exactly the distribution: 100 tiles, 2 blanks. */
  lemma BagDone(bag: seq<char>)
    requires CountsSoFar(bag, {})
    ensures forall c :: multiset(bag)[c] == TileCount(c)
    ensures |bag| == 100 && multiset(bag)[Blank] == 2
  {
    DistributionKeysCounted();
    assert forall c :: multiset(bag)[c] == TileCount(c);
    BagSize(bag);
  }

  /** The bag holds all the tiles of the keys already drawn out of the distribution's keys,
      and nothing else. */
  ghost predicate CountsSoFar(bag: seq<char>, keys: set<char>) {
    forall c :: multiset(bag)[c] == if c in DistributionKeys && c !in keys then TileCount(c) else 0
  }

  lemma AddRun(bag: seq<char>, keys: set<char>, letter: char, run: seq<char>)
    requires letter in keys && keys <= DistributionKeys && CountsSoFar(bag, keys)
    requires |run| == TileCount(letter) && forall i :: 0 <= i < |run| ==> run[i] == letter
    ensures CountsSoFar(bag + run, keys - {letter})
  {
    forall c ensures multiset(bag + run)[c] == if c in DistributionKeys && c !in keys - {letter} then TileCount(c) else 0 {
      UniformCount(run, letter, c);
    }
  }

  /** Two sequences with the same count of every character have the same length. */
  lemma SameCountsSameLength(a: seq<char>, b: seq<char>)
    requires forall c :: multiset(a)[c] == multiset(b)[c]
    ensures |a| == |b|
  {
    assert multiset(a) == multiset(b);
    assert |multiset(a)| == |a| && |multiset(b)| == |b|;
  }

  /** Any bag holding exactly the distribution's counts holds 100 tiles. */
  lemma BagSize(bag: seq<char>)
    requires forall c :: multiset(bag)[c] == TileCount(c)
    ensures |bag| == 100
  {
    ReferenceBag();
    SameCountsSameLength(TilesOf(Alphabet, |Alphabet|), bag);
  }
}
