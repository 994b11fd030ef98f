/** classic.go: players with racks and scores taking turns on one board, drawing replacement
    tiles from a shared bag. */
module ClassicGame {
  import opened Wrappers
  import opened Letters
  import opened Grid
  import opened Validation
  import opened Scoring
  import opened BoardState
  import opened Rack

  /** Why a move of the classic game is refused. */
  datatype GameError =
    | InvalidPlacement(reason: PlacementError)
    | UnknownPlayer(index: int)
    | MissingLetters      // hasLetters is false for the letters the word spends
    | LettersNotFound     // removeLetters could not find every letter
    | DrawFromLastTile    // rand.IntN(0) panics when one tile is left in the bag

  /** getNextPlayerIdx: the next seat, wrapping past the last one to 0. */
  function NextIndex(current: int, count: int): int {
    if current + 1 > count - 1 then 0 else current + 1
  }

  /** Seats are visited round-robin: from a seat of the table the next one is (i + 1) mod n. */
  lemma NextIndexRoundRobin(current: int, count: int)
    requires 0 <= current < count
    ensures NextIndex(current, count) == (current + 1) % count
    ensures 0 <= NextIndex(current, count) < count
  {
    if current + 1 == count {
      assert (current + 1) % count == 0;
    } else {
      assert (current + 1) % count == current + 1;
    }
  }

  /** Drawing tile i moves it from the bag to the rack: the tiles of rack and bag together
      stay the same. */
  lemma DrawConserves(rack: seq<char>, bag: seq<char>, i: nat)
    requires i < |bag|
    ensures multiset(rack + [bag[i]]) + multiset(Remove(bag, i)) == multiset(rack) + multiset(bag)
    ensures |rack + [bag[i]]| + |Remove(bag, i)| == |rack| + |bag|
  {
  }

  class Player {
    var name: string
    var letters: seq<char>
    var score: int

    constructor (name: string)
      ensures this.name == name && letters == [] && score == 0
    {
      this.name := name;
      letters := [];
      score := 0;
    }

    /** getUsedLetters on this rack. */
    method GetUsedLetters(wants: seq<char>) returns (usage: multiset<char>, foundAll: bool)
      ensures (usage, foundAll) == Used(letters, wants)
    {
      usage, foundAll := Rack.GetUsedLetters(letters, wants);
    }

    /** hasLetters: every wanted letter is found on the rack, by an exact tile or a blank. */
    method HasLetters(wants: seq<char>) returns (has: bool)
      ensures has == Used(letters, wants).1
    {
      var _, foundAll := GetUsedLetters(wants);
      has := foundAll;
    }

    /** removeLetters: fails, leaving the rack alone, when a letter is missing; otherwise the
        rack becomes the tiles left over. */
    method RemoveLetters(wants: seq<char>) returns (r: Outcome<GameError>)
      modifies this
      ensures r.Fail? <==> !Used(old(letters), wants).1
      ensures r.Fail? ==> r.error == LettersNotFound && letters == old(letters)
      ensures r.Pass? ==> multiset(letters) == Used(old(letters), wants).0
      ensures name == old(name) && score == old(score)
    {
      var usageMap, foundAll := GetUsedLetters(wants);
      if !foundAll {
        return Fail(LettersNotFound);
      }
      var newLetters := RackOf(usageMap);
      letters := newLetters;
      return Pass;
    }
  }

  class Classic {
    var board: Board
    var players: seq<Player>
    var currentPlayer: int
    var spareLetters: seq<char>
    var numWordsPlaced: int
    var complete: bool

    /** The board is well formed, each player sits once, and the current seat is a seat of
        the table (or 0 before anyone joins). */
    predicate Valid()
      reads this, board
    {
      && board.Valid()
      && (forall i, j :: 0 <= i < j < |players| ==> players[i] != players[j])
      && 0 <= currentPlayer && (currentPlayer < |players| || currentPlayer == 0)
    }

    /** NewClassicGame: a fresh 15 x 15 board, the full bag and no players. */
    constructor ()
      ensures Valid() && fresh(board)
      ensures board.grid == NewGrid(15) && players == [] && currentPlayer == 0
      ensures forall c :: multiset(spareLetters)[c] == TileCount(c)
      ensures numWordsPlaced == 0 && !complete
    {
      var bag := MakeLetterBag();
      board := new Board(15);
      currentPlayer := 0;
      spareLetters := bag;
      players := [];
      numWordsPlaced := 0;
      complete := false;
    }

    /** getPlayer: the player in that seat. */
    method GetPlayer(idx: int) returns (r: Result<Player, GameError>)
      ensures r == if 0 <= idx < |players| then Ok(players[idx]) else Err(UnknownPlayer(idx))
    {
      var k := 0;
      while k < |players|
        invariant 0 <= k <= |players| && !(0 <= idx < k)
      {
        if k == idx {
          return Ok(players[k]);
        }
        k := k + 1;
      }
      return Err(UnknownPlayer(idx));
    }

    /** GetCurrentPlayer: the player whose turn it is. */
    method GetCurrentPlayer() returns (r: Result<Player, GameError>)
      ensures r == if 0 <= currentPlayer < |players| then Ok(players[currentPlayer]) else Err(UnknownPlayer(currentPlayer))
    {
      r := GetPlayer(currentPlayer);
    }

    /** getCurrentPlayerName: the current player's name, or "Unknown" when the seat is empty. */
    method GetCurrentPlayerName() returns (name: string)
      ensures name == if 0 <= currentPlayer < |players| then players[currentPlayer].name else "Unknown"
    {
      var current := GetCurrentPlayer();
      if current.Err? {
        return "Unknown";
      }
      return current.value.name;
    }

    /** getNextPlayerIdx: the seat after the current one, wrapping to 0. */
    method GetNextPlayerIdx() returns (next: int)
      ensures next == NextIndex(currentPlayer, |players|)
    {
      if currentPlayer + 1 > |players| - 1 {
        return 0;
      }
      return currentPlayer + 1;
    }

    /** NextPlayer: the turn passes to the next seat if that player still has tiles;
        otherwise the game is over and the turn stays where it was. The loop asks about the
        same seat on every attempt. */
    method NextPlayer()
      requires Valid()
      modifies this
      ensures Valid()
      ensures var next := NextIndex(old(currentPlayer), |players|);
        if |players| > 0 && |players[next].letters| > 0 then currentPlayer == next && complete == old(complete)
        else currentPlayer == old(currentPlayer) && complete
      ensures board == old(board) && players == old(players) && spareLetters == old(spareLetters)
      ensures numWordsPlaced == old(numWordsPlaced)
    {
      if |players| > 0 {
        NextIndexRoundRobin(currentPlayer, |players|);
      }
      var maxAttempts := |players|;
      while maxAttempts > 0
        invariant 0 <= maxAttempts <= |players| && currentPlayer == old(currentPlayer)
        invariant complete == old(complete) && board == old(board) && players == old(players)
        invariant spareLetters == old(spareLetters) && numWordsPlaced == old(numWordsPlaced)
        invariant maxAttempts < |players| ==> |players[NextIndex(currentPlayer, |players|)].letters| == 0
      {
        var next := GetNextPlayerIdx();
        if |players[next].letters| > 0 {
          currentPlayer := next;
          break;
        }
        maxAttempts := maxAttempts - 1;
      }
      if maxAttempts == 0 {
        complete := true;
      }
    }

    /** refillPlayerLetters: draws tiles into the seat's rack until it holds seven or the bag
        is empty. A draw never takes the bag's last tile, and with one tile left it panics. */
    method RefillPlayerLetters(idx: int) returns (r: Outcome<GameError>)
      requires Valid()
      modifies this, if 0 <= idx < |players| then {players[idx]} else {}
      ensures Valid()
      ensures board == old(board) && players == old(players) && currentPlayer == old(currentPlayer)
      ensures numWordsPlaced == old(numWordsPlaced) && complete == old(complete)
      ensures !(0 <= idx < |players|) ==> r == Fail(UnknownPlayer(idx)) && spareLetters == old(spareLetters)
      ensures 0 <= idx < |players| ==>
        var p := players[idx];
        && p.name == old(p.name) && p.score == old(p.score)
        && multiset(p.letters) + multiset(spareLetters) == multiset(old(p.letters)) + multiset(old(spareLetters))
        && |p.letters| + |spareLetters| == |old(p.letters)| + |old(spareLetters)|
        && old(p.letters) <= p.letters
        && (r.Pass? ==> |p.letters| + 1 > NumPlayerLetters || |spareLetters| == 0)
        && (r.Fail? ==> r.error == DrawFromLastTile && |spareLetters| == 1 && |p.letters| < NumPlayerLetters)
        && (|p.letters| > |old(p.letters)| ==> |p.letters| <= NumPlayerLetters)
        && (|old(spareLetters)| > 0 ==> |spareLetters| > 0 && spareLetters[|spareLetters| - 1] == old(spareLetters)[|old(spareLetters)| - 1])
    {
      var found := GetPlayer(idx);
      if found.Err? {
        return Fail(found.error);
      }
      var player := found.value;
      while true
        invariant board == old(board) && players == old(players) && currentPlayer == old(currentPlayer)
        invariant numWordsPlaced == old(numWordsPlaced) && complete == old(complete)
        invariant 0 <= idx < |players| && player == players[idx] && player.name == old(player.name) && player.score == old(player.score)
        invariant multiset(player.letters) + multiset(spareLetters) == multiset(old(player.letters)) + multiset(old(spareLetters))
        invariant |player.letters| + |spareLetters| == |old(player.letters)| + |old(spareLetters)|
        invariant old(player.letters) <= player.letters
        invariant |player.letters| > |old(player.letters)| ==> |player.letters| <= NumPlayerLetters
        invariant |old(spareLetters)| > 0 ==>
          |spareLetters| > 0 && spareLetters[|spareLetters| - 1] == old(spareLetters)[|old(spareLetters)| - 1]
        decreases |spareLetters|
      {
        if |player.letters| + 1 > NumPlayerLetters || |spareLetters| == 0 {
          return Pass;
        }
        if |spareLetters| - 1 == 0 {
          return Fail(DrawFromLastTile);
        }
        var letterIdx :| 0 <= letterIdx < |spareLetters| - 1;
        DrawConserves(player.letters, spareLetters, letterIdx);
        player.letters := player.letters + [spareLetters[letterIdx]];
        spareLetters := Remove(spareLetters, letterIdx);
      }
    }

    /** AddPlayer: a new player with an empty rack takes the next seat and draws a rack. */
    method AddPlayer(name: string) returns (r: Outcome<GameError>)
      requires Valid()
      modifies this
      ensures Valid()
      ensures |players| == |old(players)| + 1 && players[..|old(players)|] == old(players)
      ensures var p := players[|players| - 1];
        && fresh(p) && p.name == name && p.score == 0
        && multiset(p.letters) + multiset(spareLetters) == multiset(old(spareLetters))
        && (r.Pass? ==> |p.letters| == NumPlayerLetters || |spareLetters| == 0)
        && (r.Fail? ==> r.error == DrawFromLastTile && |spareLetters| == 1 && |p.letters| < NumPlayerLetters)
      ensures board == old(board) && currentPlayer == old(currentPlayer)
      ensures numWordsPlaced == old(numWordsPlaced) && complete == old(complete)
    {
      var p := new Player(name);
      players := players + [p];
      r := RefillPlayerLetters(|players| - 1);
    }

    /** PlaceWord: upper-cases the word, checks the placement (as a first word iff no word
        has been placed) and the current player's letters; a move refused here changes
        nothing. An accepted move is carried out by Commit. */
    method PlaceWord(place: Placement, word: seq<char>) returns (r: Outcome<GameError>)
      requires Valid()
      modifies this, board, if 0 <= currentPlayer < |players| then {players[currentPlayer]} else {}
      ensures Valid() && players == old(players)
      ensures var w := ToUpper(word);
        var v := Validate(old(board.grid), place, w, old(numWordsPlaced) == 0);
        if !(0 <= old(currentPlayer) < |old(players)|) then
          r == Fail(UnknownPlayer(old(currentPlayer))) && unchanged(this) && unchanged(board) && unchanged(players)
        else if v.Err? then
          r == Fail(InvalidPlacement(v.error)) && unchanged(this) && unchanged(board) && unchanged(players)
        else if !Used(old(players[currentPlayer].letters), v.value.lettersSpent).1 then
          r == Fail(MissingLetters) && unchanged(this) && unchanged(board) && unchanged(players)
        else
          Committed(old(board.grid), place, w, v.value, old(players[currentPlayer].name), old(players[currentPlayer].letters),
            old(spareLetters), old(players[currentPlayer].score), old(currentPlayer), old(numWordsPlaced), old(complete), r)
    {
      var w := ToUpper(word);
      var current := GetCurrentPlayer();
      if current.Err? {
        return Fail(current.error);
      }
      var player := current.value;
      var checked := board.IsValidWordPlacement(place, w, numWordsPlaced == 0);
      if checked.Err? {
        return Fail(InvalidPlacement(checked.error));
      }
      var result := checked.value;
      var has := player.HasLetters(result.lettersSpent);
      if !has {
        return Fail(MissingLetters);
      }
      r := Commit(place, w, result);
    }

    /** What an accepted move leaves behind, from the board g, the mover's name, rack and
        score, the bag, the seat, the number of words and the completion flag before it and
        the move's outcome r: the mover keeps the name and the letters are spent whatever
        happens next; if the word runs off the board (placeWord fails) the board keeps the
        letters written so far and nothing else changes; otherwise the word is written, and
        the rack is refilled from the bag; if the refill panics on the last tile the move
        stops there; otherwise the score grows by the move's score, the next seat takes the
        turn, or the game completes when that seat has no tiles, and one more word is
        counted. */
    ghost predicate Committed(g: Grid, place: Placement, w: seq<char>, result: PlacementResult,
      name: string, rack: seq<char>, bag: seq<char>, score: int, seat: int, words: int, done: bool,
      r: Outcome<GameError>)
      requires WellFormed(g) && 0 <= seat < |players|
      reads this, board, players
    {
      var p := players[seat];
      var k := FirstWrap(g, place, w, 0);
      && board.grid == PlacedGrid(g, place, w, k)
      && p.name == name
      && multiset(p.letters) + multiset(spareLetters) == Used(rack, result.lettersSpent).0 + multiset(bag)
      && (if k < |w| then
            && r == Fail(InvalidPlacement(InvalidCellRange))
            && spareLetters == bag && p.score == score && currentPlayer == seat && numWordsPlaced == words
            && complete == done
          else if r.Fail? then
            && r.error == DrawFromLastTile && |spareLetters| == 1
            && p.score == score && currentPlayer == seat && numWordsPlaced == words && complete == done
          else
            && p.score == score + ScoreOf(result)
            && (|p.letters| + 1 > NumPlayerLetters || |spareLetters| == 0)
            && numWordsPlaced == words + 1
            && var next := NextIndex(seat, |players|);
              if |players[next].letters| > 0 then currentPlayer == next && complete == done
              else currentPlayer == seat && complete)
    }

    /** What the last steps of an accepted move leave behind, from the mover's name, the rack
        once the letters are spent, the bag, the mover's score, the seat, the number of words
        and the completion flag before them: the mover keeps the name and the tiles drawn
        move from the bag to the rack; a refill that panics on the last tile stops the move;
        otherwise the score grows by the move's score, the turn passes, or the game completes
        when the next seat has no tiles, and one more word is counted. */
    ghost predicate Settled(name: string, rack: seq<char>, bag: seq<char>, score: int, seat: int, words: int,
      done: bool, result: PlacementResult, r: Outcome<GameError>)
      requires 0 <= seat < |players|
      reads this, players
    {
      var p := players[seat];
      && p.name == name
      && multiset(p.letters) + multiset(spareLetters) == multiset(rack) + multiset(bag)
      && if r.Fail? then
           && r.error == DrawFromLastTile && |spareLetters| == 1
           && p.score == score && currentPlayer == seat && numWordsPlaced == words && complete == done
         else
           && p.score == score + ScoreOf(result)
           && (|p.letters| + 1 > NumPlayerLetters || |spareLetters| == 0)
           && numWordsPlaced == words + 1
           && var next := NextIndex(seat, |players|);
             if |players[next].letters| > 0 then currentPlayer == next && complete == done
             else currentPlayer == seat && complete
    }

    /** The refill, scoring, turn passing and word counting that end an accepted move. */
    method Settle(result: PlacementResult) returns (r: Outcome<GameError>)
      requires Valid() && 0 <= currentPlayer < |players|
      modifies this, players[currentPlayer]
      ensures Valid() && board == old(board) && players == old(players) && 0 <= old(currentPlayer) < |players|
      ensures Settled(old(players[currentPlayer].name), old(players[currentPlayer].letters), old(spareLetters),
        old(players[currentPlayer].score), old(currentPlayer), old(numWordsPlaced), old(complete), result, r)
    {
      var player := players[currentPlayer];
      var refilled := RefillPlayerLetters(currentPlayer);
      if refilled.Fail? {
        return refilled;
      }
      var points := Score(result);
      player.score := player.score + points;
      NextPlayer();
      numWordsPlaced := numWordsPlaced + 1;
      return Pass;
    }

    /** The second half of PlaceWord: spend the letters, write the word, refill the rack,
        score the move, pass the turn and count the word. */
    method Commit(place: Placement, w: seq<char>, result: PlacementResult) returns (r: Outcome<GameError>)
      requires Valid() && 0 <= currentPlayer < |players|
      requires Validate(board.grid, place, w, numWordsPlaced == 0) == Ok(result)
      requires Used(players[currentPlayer].letters, result.lettersSpent).1
      modifies this, board, players[currentPlayer]
      ensures Valid() && players == old(players) && 0 <= old(currentPlayer) < |players|
      ensures Committed(old(board.grid), place, w, result, old(players[currentPlayer].name), old(players[currentPlayer].letters),
        old(spareLetters), old(players[currentPlayer].score), old(currentPlayer), old(numWordsPlaced), old(complete), r)
    {
      var player := players[currentPlayer];
      var removed := player.RemoveLetters(result.lettersSpent);
      assert removed.Pass?;
      var placed := board.PlaceWord(place, w);
      if placed.Err? {
        return Fail(InvalidPlacement(placed.error));
      }
      r := Settle(result);
    }
  }
}
