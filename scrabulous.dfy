/** scrabulous.go: the "steal" variant. Everybody plays from one shared rack; a valid word
    joins a queue of pending words only when it beats the best word so far, and when the
    steal window closes the best pending word is written to the board and the rack is
    redrawn from the bag. */
module Scrabulous {
  import opened Wrappers
  import opened Letters
  import opened Grid
  import opened Validation
  import opened Scoring
  import opened BoardState
  import opened Rack

  /** ScrabulousState: idle, or a steal window is open. */
  datatype GameState = Idle | Stealing

  /** Why a call of the steal game is refused. */
  datatype GameError =
    | InvalidPlacement(reason: PlacementError)
    | MissingLetters      // haveLetters is false for the letters the word spends
    | LettersNotFound     // removeLetters could not find every letter
    | NoPendingWords

  /** A submitted word with its checked placement; Stolen is set when it displaced an
      earlier pending word. */
  datatype Word = Word(submitter: string, word: seq<char>, place: Placement, result: PlacementResult, stolen: bool)

  function WordScore(w: Word): nat {
    ScoreOf(w.result)
  }

  /** The pending queue's order: every word scores strictly more than the ones before it. */
  predicate RisingScores(ws: seq<Word>) {
    forall i, j :: 0 <= i < j < |ws| ==> WordScore(ws[i]) < WordScore(ws[j])
  }

  function Min(a: int, b: int): int {
    if a <= b then a else b
  }

  // ----- per-player score aggregation (GetScores) -----

  /** Score: one player's points and number of words placed. */
  datatype PlayerScore = PlayerScore(playerName: string, score: int, words: int)

  /** The first entry at or after k that belongs to the named player, or -1. */
  function FindFrom(s: seq<PlayerScore>, name: string, k: nat): (i: int)
    requires k <= |s|
    ensures i == -1 || k <= i < |s|
    ensures i >= 0 ==> s[i].playerName == name && forall j :: k <= j < i ==> s[j].playerName != name
    ensures i == -1 ==> forall j :: k <= j < |s| ==> s[j].playerName != name
    decreases |s| - k
  {
    if k == |s| then -1
    else if s[k].playerName == name then k
    else FindFrom(s, name, k + 1)
  }

  /** One placed word added to the tally: its submitter's entry is credited, or a new entry
      is appended at the end. */
  function AddWord(s: seq<PlayerScore>, w: Word): seq<PlayerScore> {
    var k := FindFrom(s, w.submitter, 0);
    if k < 0 then s + [PlayerScore(w.submitter, WordScore(w), 1)]
    else s[k := s[k].(score := s[k].score + WordScore(w), words := s[k].words + 1)]
  }

  /** The scores before sorting: the placed words added in order. */
  function Tally(ws: seq<Word>): seq<PlayerScore> {
    if ws == [] then [] else AddWord(Tally(ws[..|ws| - 1]), ws[|ws| - 1])
  }

  function Names(s: seq<PlayerScore>): seq<string> {
    seq(|s|, i requires 0 <= i < |s| => s[i].playerName)
  }

  ghost predicate DistinctNames(s: seq<PlayerScore>) {
    forall i, j :: 0 <= i < j < |s| ==> s[i].playerName != s[j].playerName
  }

  /** How many of the words the named player submitted, and what they scored. */
  function Count(ws: seq<Word>, name: string): nat {
    if ws == [] then 0
    else Count(ws[..|ws| - 1], name) + (if ws[|ws| - 1].submitter == name then 1 else 0)
  }

  function Total(ws: seq<Word>, name: string): int {
    if ws == [] then 0
    else Total(ws[..|ws| - 1], name) + (if ws[|ws| - 1].submitter == name then WordScore(ws[|ws| - 1]) else 0)
  }

  function TotalScore(ws: seq<Word>): int {
    if ws == [] then 0 else TotalScore(ws[..|ws| - 1]) + WordScore(ws[|ws| - 1])
  }

  function SumWords(s: seq<PlayerScore>): int {
    if s == [] then 0 else SumWords(s[..|s| - 1]) + s[|s| - 1].words
  }

  function SumScores(s: seq<PlayerScore>): int {
    if s == [] then 0 else SumScores(s[..|s| - 1]) + s[|s| - 1].score
  }

  /** The tally has one entry per distinct submitter, and each entry counts exactly that
      player's words and their scores. */
  lemma {:induction false} TallySpec(ws: seq<Word>)
    ensures DistinctNames(Tally(ws))
    ensures forall name :: name in Names(Tally(ws)) <==> Count(ws, name) > 0
    ensures forall i :: 0 <= i < |Tally(ws)| ==>
      Tally(ws)[i].words == Count(ws, Tally(ws)[i].playerName) && Tally(ws)[i].score == Total(ws, Tally(ws)[i].playerName)
    decreases |ws|
  {
    if ws != [] {
      var front, w := ws[..|ws| - 1], ws[|ws| - 1];
      TallySpec(front);
      var s := Tally(front);
      var t := Tally(ws);
      assert t == AddWord(s, w);
      var k := FindFrom(s, w.submitter, 0);
      forall name
        ensures Count(ws, name) == Count(front, name) + (if w.submitter == name then 1 else 0)
        ensures Total(ws, name) == Total(front, name) + (if w.submitter == name then WordScore(w) else 0)
      {
      }
      if k < 0 {
        assert Names(t) == Names(s) + [w.submitter];
        assert w.submitter !in Names(s);
        NoWordsNoPoints(front, w.submitter);
        forall i | 0 <= i < |t|
          ensures t[i].words == Count(ws, t[i].playerName) && t[i].score == Total(ws, t[i].playerName)
        {
          if i < |s| {
            assert t[i] == s[i] && s[i].playerName != w.submitter;
          }
        }
      } else {
        assert Names(t) == Names(s) && Names(s)[k] == w.submitter;
        forall i | 0 <= i < |t|
          ensures t[i].words == Count(ws, t[i].playerName) && t[i].score == Total(ws, t[i].playerName)
        {
          if i != k {
            assert t[i] == s[i] && s[i].playerName != w.submitter;
          }
        }
      }
    }
  }

  /** A player with no words has no points. */
  lemma {:induction false} NoWordsNoPoints(ws: seq<Word>, name: string)
    requires Count(ws, name) == 0
    ensures Total(ws, name) == 0
    decreases |ws|
  {
    if ws != [] {
      NoWordsNoPoints(ws[..|ws| - 1], name);
    }
  }

  lemma {:induction false} SumsAppend(a: seq<PlayerScore>, b: seq<PlayerScore>)
    ensures SumWords(a + b) == SumWords(a) + SumWords(b)
    ensures SumScores(a + b) == SumScores(a) + SumScores(b)
    decreases |b|
  {
    if b == [] {
      assert a + b == a;
    } else {
      assert (a + b)[..|a + b| - 1] == a + b[..|b| - 1];
      SumsAppend(a, b[..|b| - 1]);
    }
  }

  /** A new entry adds its words and its score to the sums. */
  lemma SumsAppendOne(s: seq<PlayerScore>, e: PlayerScore)
    ensures SumWords(s + [e]) == SumWords(s) + e.words
    ensures SumScores(s + [e]) == SumScores(s) + e.score
  {
    assert (s + [e])[..|s|] == s;
  }

  /** Crediting one entry changes the sums by exactly the change in that entry. */
  lemma SumsUpdate(s: seq<PlayerScore>, k: nat, e: PlayerScore)
    requires k < |s|
    ensures SumWords(s[k := e]) == SumWords(s) - s[k].words + e.words
    ensures SumScores(s[k := e]) == SumScores(s) - s[k].score + e.score
  {
    assert s == s[..k] + [s[k]] + s[k + 1..];
    assert s[k := e] == s[..k] + [e] + s[k + 1..];
    SumsAppend(s[..k] + [s[k]], s[k + 1..]);
    SumsAppend(s[..k] + [e], s[k + 1..]);
    SumsAppend(s[..k], [s[k]]);
    SumsAppend(s[..k], [e]);
  }

  /** Over all players the tally counts every placed word once and every point once. */
  lemma {:induction false} TallySums(ws: seq<Word>)
    ensures SumWords(Tally(ws)) == |ws|
    ensures SumScores(Tally(ws)) == TotalScore(ws)
    decreases |ws|
  {
    if ws != [] {
      var front, w := ws[..|ws| - 1], ws[|ws| - 1];
      TallySums(front);
      var s := Tally(front);
      assert Tally(ws) == AddWord(s, w);
      assert TotalScore(ws) == TotalScore(front) + WordScore(w);
      var k := FindFrom(s, w.submitter, 0);
      var t := Tally(ws);
      if k < 0 {
        var e := PlayerScore(w.submitter, WordScore(w), 1);
        assert t == s + [e];
        SumsAppendOne(s, e);
      } else {
        var e := s[k].(score := s[k].score + WordScore(w), words := s[k].words + 1);
        assert t == s[k := e];
        SumsUpdate(s, k, e);
      }
    }
  }

  /** The inner loop of GetScores: credit the submitter's entry if there is one (stopping at
      the first), else append a new entry. */
  method Credit(scores: seq<PlayerScore>, v: Word) returns (s: seq<PlayerScore>)
    ensures s == AddWord(scores, v)
  {
    s := scores;
    var points := Score(v.result);
    var found := false;
    var k := 0;
    while k < |s|
      invariant 0 <= k <= |s| && s == scores
      invariant FindFrom(scores, v.submitter, 0) == FindFrom(scores, v.submitter, k)
    {
      if v.submitter == s[k].playerName {
        found := true;
        s := s[k := s[k].(score := s[k].score + points, words := s[k].words + 1)];
        break;
      }
      k := k + 1;
    }
    if !found {
      s := s + [PlayerScore(v.submitter, points, 1)];
    }
  }

  ghost predicate ByScore(s: seq<PlayerScore>) {
    forall i, j :: 0 <= i < j < |s| ==> s[i].score >= s[j].score
  }

  /** t is a reordering of s: the same entries, names still distinct, the same sums. */
  ghost predicate Reordered(s: seq<PlayerScore>, t: seq<PlayerScore>) {
    && |t| == |s| && multiset(t) == multiset(s)
    && (DistinctNames(s) ==> DistinctNames(t))
    && SumWords(t) == SumWords(s) && SumScores(t) == SumScores(s)
  }

  lemma SwapSums(t: seq<PlayerScore>, j: nat)
    requires 0 < j < |t|
    ensures SumWords(t[j - 1 := t[j]][j := t[j - 1]]) == SumWords(t)
    ensures SumScores(t[j - 1 := t[j]][j := t[j - 1]]) == SumScores(t)
  {
    var pre, post := t[..j - 1], t[j + 1..];
    assert t == pre + [t[j - 1], t[j]] + post;
    assert t[j - 1 := t[j]][j := t[j - 1]] == pre + [t[j], t[j - 1]] + post;
    SumsAppend(pre + [t[j - 1], t[j]], post);
    SumsAppend(pre + [t[j], t[j - 1]], post);
    SumsAppend(pre, [t[j - 1], t[j]]);
    SumsAppend(pre, [t[j], t[j - 1]]);
    assert [t[j - 1], t[j]][..1] == [t[j - 1]];
    assert [t[j], t[j - 1]][..1] == [t[j]];
  }

  lemma SwapDistinct(t: seq<PlayerScore>, j: nat)
    requires 0 < j < |t| && DistinctNames(t)
    ensures DistinctNames(t[j - 1 := t[j]][j := t[j - 1]])
  {
    var u := t[j - 1 := t[j]][j := t[j - 1]];
    forall p, q | 0 <= p < q < |u| ensures u[p].playerName != u[q].playerName {
      var p' := if p == j - 1 then j else if p == j then j - 1 else p;
      var q' := if q == j - 1 then j else if q == j then j - 1 else q;
      assert u[p] == t[p'] && u[q] == t[q'] && p' != q';
    }
  }

  /** Swapping two neighbours of a reordering of s is still a reordering of s. */
  lemma SwapKeeps(s: seq<PlayerScore>, t: seq<PlayerScore>, j: nat)
    requires 0 < j < |t| && Reordered(s, t)
    ensures Reordered(s, t[j - 1 := t[j]][j := t[j - 1]])
  {
    SwapSums(t, j);
    if DistinctNames(s) {
      SwapDistinct(t, j);
    }
  }

  ghost predicate SortedBefore(t: seq<PlayerScore>, i: int) {
    forall p, q :: 0 <= p < q < i && q < |t| ==> t[p].score >= t[q].score
  }

  /** One pass of the insertion sort: entry i moves left past every smaller score. */
  method Sink(s: seq<PlayerScore>, t: seq<PlayerScore>, i: nat) returns (u: seq<PlayerScore>)
    requires i < |t| && Reordered(s, t) && SortedBefore(t, i)
    ensures Reordered(s, u) && SortedBefore(u, i + 1)
  {
    u := t;
    var j := i;
    while j > 0 && u[j - 1].score < u[j].score
      invariant 0 <= j <= i < |u| && Reordered(s, u)
      invariant forall p, q :: 0 <= p < q <= i && p != j && q != j ==> u[p].score >= u[q].score
      invariant forall q :: j < q <= i ==> u[j].score > u[q].score
    {
      SwapKeeps(s, u, j);
      u := u[j - 1 := u[j]][j := u[j - 1]];
      j := j - 1;
    }
  }

  /** slices.SortFunc by non-increasing score, as an insertion sort of neighbour swaps (the
      order of equal scores is whatever the sort leaves). */
  method SortByScore(s: seq<PlayerScore>) returns (t: seq<PlayerScore>)
    ensures ByScore(t) && Reordered(s, t)
  {
    t := s;
    var i := 0;
    while i < |t|
      invariant 0 <= i <= |t| && Reordered(s, t) && SortedBefore(t, i)
    {
      t := Sink(s, t, i);
      i := i + 1;
    }
  }

  /** The drawing loop of ResetLetters, from an empty rack: with one tile left that tile is
      drawn, otherwise any tile but the last, until the rack holds seven or the bag is
      empty. */
  method Redraw(tiles: seq<char>) returns (rack: seq<char>, bag: seq<char>)
    ensures multiset(rack) + multiset(bag) == multiset(tiles)
    ensures |rack| == Min(NumPlayerLetters, |tiles|) && |rack| + |bag| == |tiles|
    ensures |tiles| > NumPlayerLetters ==> bag[|bag| - 1] == tiles[|tiles| - 1]
  {
    rack, bag := [], tiles;
    while true
      invariant multiset(rack) + multiset(bag) == multiset(tiles)
      invariant |rack| + |bag| == |tiles| && |rack| <= NumPlayerLetters
      invariant |tiles| > NumPlayerLetters ==> bag[|bag| - 1] == tiles[|tiles| - 1]
      decreases |bag|
    {
      if |rack| + 1 > NumPlayerLetters || |bag| == 0 {
        return;
      }
      var letterIdx: int;
      if |bag| - 1 == 0 {
        letterIdx := 0;
      } else {
        letterIdx :| 0 <= letterIdx < |bag| - 1;
      }
      DrawStep(tiles, rack, bag, letterIdx);
      rack := rack + [bag[letterIdx]];
      bag := Remove(bag, letterIdx);
    }
  }

  /** One draw of Redraw keeps its loop invariant. */
  lemma DrawStep(tiles: seq<char>, rack: seq<char>, bag: seq<char>, i: nat)
    requires multiset(rack) + multiset(bag) == multiset(tiles)
    requires |rack| + |bag| == |tiles| && |rack| < NumPlayerLetters
    requires |tiles| > NumPlayerLetters ==> bag[|bag| - 1] == tiles[|tiles| - 1]
    requires i < |bag| && (|bag| > 1 ==> i < |bag| - 1)
    ensures multiset(rack + [bag[i]]) + multiset(Remove(bag, i)) == multiset(tiles)
    ensures |rack + [bag[i]]| + |Remove(bag, i)| == |tiles|
    ensures |tiles| > NumPlayerLetters ==> Remove(bag, i)[|bag| - 2] == tiles[|tiles| - 1]
  {
    assert multiset(rack + [bag[i]]) == multiset(rack) + multiset{bag[i]};
    if |tiles| > NumPlayerLetters {
      RemoveKeepsLast(bag, i);
    }
  }

  class Scrabulous {
    var board: Board
    var spareLetters: seq<char>
    var letters: seq<char>
    var placedWords: seq<Word>
    var pendingWords: seq<Word>
    var placeWordAt: Option<int>
    var complete: bool
    var gameState: GameState
    var stealTime: int

    /** The board is well formed, the pending scores rise strictly, and a steal window (a
        state and a deadline) is open exactly while words are pending. */
    predicate Valid()
      reads this, board
    {
      && board.Valid()
      && RisingScores(pendingWords)
      && (|pendingWords| > 0 <==> gameState == Stealing)
      && (gameState == Stealing <==> placeWordAt.Some?)
    }

    /** NewScrabulousGame: only the steal time is set before ResetGame starts a game. */
    constructor (stealTime: int)
      ensures Valid() && fresh(board) && board.grid == NewGrid(15) && this.stealTime == stealTime
      ensures placedWords == [] && pendingWords == [] && placeWordAt == None && !complete && gameState == Idle
      ensures forall c :: multiset(letters)[c] + multiset(spareLetters)[c] == TileCount(c)
      ensures |letters| == NumPlayerLetters && |spareLetters| == 100 - NumPlayerLetters
    {
      board := new Board(0);
      letters := [];
      this.stealTime := stealTime;
      new;
      ResetGame();
    }

    /** IsPlayerAllowed: nobody may place two words in a row. */
    method IsPlayerAllowed(playerName: string) returns (allowed: bool)
      ensures allowed <==> |placedWords| == 0 || placedWords[|placedWords| - 1].submitter != playerName
    {
      if |placedWords| == 0 {
        return true;
      }
      return placedWords[|placedWords| - 1].submitter != playerName;
    }

    /** IsNewBestWord: a score is a new best iff it beats every pending word; the queue's
        order lets the source compare with the last one only. */
    method IsNewBestWord(score: int) returns (best: bool)
      requires RisingScores(pendingWords)
      ensures best <==> forall w :: w in pendingWords ==> WordScore(w) < score
    {
      if |pendingWords| == 0 {
        return true;
      }
      var last := Score(pendingWords[|pendingWords| - 1].result);
      best := score > last;
      if best {
        forall w | w in pendingWords ensures WordScore(w) < score {
          var i :| 0 <= i < |pendingWords| && pendingWords[i] == w;
          if i < |pendingWords| - 1 {
            assert WordScore(pendingWords[i]) < WordScore(pendingWords[|pendingWords| - 1]);
          }
        }
      }
    }

    /** BestPendingWord: nothing when nothing is pending, else a pending word no other
        pending word outscores: the last one. */
    method BestPendingWord() returns (o: Option<Word>)
      requires Valid()
      ensures o.None? <==> pendingWords == []
      ensures o.Some? ==> o.value == pendingWords[|pendingWords| - 1]
      ensures o.Some? ==> forall w :: w in pendingWords ==> WordScore(w) <= WordScore(o.value)
    {
      if |pendingWords| == 0 {
        return None;
      }
      o := Some(pendingWords[|pendingWords| - 1]);
      forall w | w in pendingWords ensures WordScore(w) <= WordScore(o.value) {
        var i :| 0 <= i < |pendingWords| && pendingWords[i] == w;
        if i < |pendingWords| - 1 {
          assert WordScore(pendingWords[i]) < WordScore(pendingWords[|pendingWords| - 1]);
        }
      }
    }

    /** GetLastPendingWord: the most recently queued word, if any. */
    method GetLastPendingWord() returns (o: Option<Word>)
      ensures o == if pendingWords == [] then None else Some(pendingWords[|pendingWords| - 1])
    {
      if |pendingWords| == 0 {
        return None;
      }
      return Some(pendingWords[|pendingWords| - 1]);
    }

    /** startStealTime, with the clock reading passed in: the window closes stealTime after
        now. */
    method StartStealTime(now: int)
      modifies this
      ensures placeWordAt == Some(now + stealTime) && gameState == Stealing
      ensures board == old(board) && letters == old(letters) && spareLetters == old(spareLetters)
      ensures placedWords == old(placedWords) && pendingWords == old(pendingWords)
      ensures complete == old(complete) && stealTime == old(stealTime)
    {
      placeWordAt := Some(now + stealTime);
      gameState := Stealing;
    }

    /** setGameIdle: empties the queue and closes the window. */
    method SetGameIdle()
      modifies this
      ensures pendingWords == [] && gameState == Idle && placeWordAt == None
      ensures board == old(board) && letters == old(letters) && spareLetters == old(spareLetters)
      ensures placedWords == old(placedWords) && complete == old(complete) && stealTime == old(stealTime)
    {
      pendingWords := [];
      gameState := Idle;
      placeWordAt := None;
    }

    /** getUsedLetters on the shared rack. */
    method GetUsedLetters(wants: seq<char>) returns (usage: multiset<char>, foundAll: bool)
      ensures (usage, foundAll) == Used(letters, wants)
    {
      usage, foundAll := Rack.GetUsedLetters(letters, wants);
    }

    /** haveLetters: every wanted letter is on the rack, as itself or as a blank. */
    method HaveLetters(wants: seq<char>) returns (has: bool)
      ensures has == Used(letters, wants).1
    {
      var _, foundAll := GetUsedLetters(wants);
      has := foundAll;
    }

    /** removeLetters: fails, leaving the rack alone, when a letter is missing; otherwise the
        rack becomes the tiles left over. */
    method RemoveLetters(wants: seq<char>) returns (r: Outcome<GameError>)
      modifies this
      ensures r.Fail? <==> !Used(old(letters), wants).1
      ensures r.Fail? ==> r.error == LettersNotFound && letters == old(letters)
      ensures r.Pass? ==> multiset(letters) == Used(old(letters), wants).0
      ensures board == old(board) && spareLetters == old(spareLetters) && placedWords == old(placedWords)
      ensures pendingWords == old(pendingWords) && placeWordAt == old(placeWordAt)
      ensures complete == old(complete) && gameState == old(gameState) && stealTime == old(stealTime)
    {
      var usageMap, foundAll := GetUsedLetters(wants);
      if !foundAll {
        return Fail(LettersNotFound);
      }
      var newLetters := RackOf(usageMap);
      letters := newLetters;
      return Pass;
    }

    /** ResetLetters: the rack goes back into the bag, then tiles are drawn until the rack
        holds seven or the bag is empty; with one tile left that tile is drawn, otherwise any
        tile but the last, so with more than seven tiles in all the last tile returned stays
        in the bag. */
    method ResetLetters()
      modifies this
      ensures multiset(letters) + multiset(spareLetters) == multiset(old(letters)) + multiset(old(spareLetters))
      ensures |letters| + |spareLetters| == |old(letters)| + |old(spareLetters)|
      ensures |letters| == Min(NumPlayerLetters, |old(letters)| + |old(spareLetters)|)
      ensures var tiles := old(spareLetters) + old(letters);
        |tiles| > NumPlayerLetters ==> spareLetters[|spareLetters| - 1] == tiles[|tiles| - 1]
      ensures board == old(board) && placedWords == old(placedWords) && pendingWords == old(pendingWords)
      ensures placeWordAt == old(placeWordAt) && complete == old(complete)
      ensures gameState == old(gameState) && stealTime == old(stealTime)
    {
      var bag := spareLetters;
      var k := 0;
      while k < |letters|
        invariant 0 <= k <= |letters| && bag == old(spareLetters) + letters[..k]
      {
        assert letters[..k + 1] == letters[..k] + [letters[k]];
        bag := bag + [letters[k]];
        k := k + 1;
      }
      assert letters[..k] == letters;
      letters, spareLetters := Redraw(bag);
    }

    /** The first part of ResetGame: a fresh board, the full bag, no words, idle and not
        complete; the rack is left as it is. */
    method ClearGame()
      modifies this
      ensures Valid() && fresh(board) && board.grid == NewGrid(15) && stealTime == old(stealTime)
      ensures placedWords == [] && pendingWords == [] && placeWordAt == None && !complete && gameState == Idle
      ensures forall c :: multiset(spareLetters)[c] == TileCount(c)
      ensures |spareLetters| == 100 && letters == old(letters)
    {
      board := new Board(15);
      var bag := MakeLetterBag();
      spareLetters := bag;
      placedWords := [];
      pendingWords := [];
      placeWordAt := None;
      gameState := Idle;
      complete := false;
    }

    /** ResetGame: a fresh board and full bag with no words, then a fresh rack. The rack is
        not cleared first, so ResetLetters returns its tiles into the fresh bag as well: the
        game then holds the 100 tiles of the distribution plus the old rack. */
    method ResetGame()
      modifies this
      ensures Valid() && fresh(board) && board.grid == NewGrid(15) && stealTime == old(stealTime)
      ensures placedWords == [] && pendingWords == [] && placeWordAt == None && !complete && gameState == Idle
      ensures forall c :: multiset(letters)[c] + multiset(spareLetters)[c] == TileCount(c) + multiset(old(letters))[c]
      ensures |letters| == NumPlayerLetters && |spareLetters| == 100 + |old(letters)| - NumPlayerLetters
    {
      ClearGame();
      ghost var bag := spareLetters;
      ResetLetters();
      forall c ensures multiset(letters)[c] + multiset(spareLetters)[c] == TileCount(c) + multiset(old(letters))[c] {
        assert (multiset(letters) + multiset(spareLetters))[c] == (multiset(old(letters)) + multiset(bag))[c];
      }
    }

    /** CreatePendingWord, with the clock reading passed in: upper-cases the word and checks
        it against the board (as a first word iff no word has been placed) and the rack; a
        refused word changes nothing. An accepted word is queued by Enqueue. */
    method CreatePendingWord(place: Placement, word: seq<char>, playerName: string, now: int)
      returns (r: Result<Option<PlacementResult>, GameError>)
      requires Valid()
      modifies this
      ensures Valid()
      ensures var w := ToUpper(word);
        var v := Validate(old(board.grid), place, w, |old(placedWords)| == 0);
        if v.Err? then r == Err(InvalidPlacement(v.error)) && unchanged(this)
        else if !Used(old(letters), v.value.lettersSpent).1 then r == Err(MissingLetters) && unchanged(this)
        else
          && board == old(board) && letters == old(letters) && spareLetters == old(spareLetters)
          && placedWords == old(placedWords) && complete == old(complete) && stealTime == old(stealTime)
          && Queued(old(pendingWords), old(placeWordAt), old(gameState), Word(playerName, w, place, v.value, old(pendingWords) != []), now, r)
    {
      var w := ToUpper(word);
      var checked := board.IsValidWordPlacement(place, w, |placedWords| == 0);
      if checked.Err? {
        return Err(InvalidPlacement(checked.error));
      }
      var result := checked.value;
      var has := HaveLetters(result.lettersSpent);
      if !has {
        return Err(MissingLetters);
      }
      r := Enqueue(place, w, playerName, result, now);
    }

    /** What queuing the word candidate leaves behind, from the queue, deadline and state
        before it: the first pending word opens the steal window; the candidate is queued,
        and its placement returned, only if it beats every pending word. */
    ghost predicate Queued(pending: seq<Word>, at: Option<int>, state: GameState, candidate: Word, now: int, r: Result<Option<PlacementResult>, GameError>)
      reads this
    {
      && (if pending == [] then placeWordAt == Some(now + stealTime) && gameState == Stealing
          else placeWordAt == at && gameState == state)
      && if forall p :: p in pending ==> WordScore(p) < WordScore(candidate) then
           r == Ok(Some(candidate.result)) && pendingWords == pending + [candidate]
         else r == Ok(None) && pendingWords == pending
    }

    /** The second half of CreatePendingWord: open the window for the first pending word,
        then queue the word if it is a new best, marked stolen iff words were pending. The
        board and the rack are never touched. */
    method Enqueue(place: Placement, w: seq<char>, playerName: string, result: PlacementResult, now: int)
      returns (r: Result<Option<PlacementResult>, GameError>)
      requires Valid()
      modifies this
      ensures Valid()
      ensures board == old(board) && letters == old(letters) && spareLetters == old(spareLetters)
      ensures placedWords == old(placedWords) && complete == old(complete) && stealTime == old(stealTime)
      ensures Queued(old(pendingWords), old(placeWordAt), old(gameState), Word(playerName, w, place, result, old(pendingWords) != []), now, r)
    {
      var firstPendingWord := false;
      if |pendingWords| == 0 {
        StartStealTime(now);
        firstPendingWord := true;
      }
      var points := Score(result);
      var best := IsNewBestWord(points);
      if best {
        pendingWords := pendingWords + [Word(playerName, w, place, result, !firstPendingWord)];
        return Ok(Some(result));
      }
      return Ok(None);
    }

    /** The scan of PlacePendingWord: the first word of highest score, which in a queue of
        rising scores is the last one. */
    method PickBest() returns (o: Option<Word>)
      requires Valid()
      ensures o.None? <==> pendingWords == []
      ensures o.Some? ==> o.value == pendingWords[|pendingWords| - 1]
      ensures o.Some? ==> forall w :: w in pendingWords ==> WordScore(w) <= WordScore(o.value)
    {
      var best: Option<Word> := None;
      var bestScore := 0;
      var i := 0;
      while i < |pendingWords|
        invariant 0 <= i <= |pendingWords|
        invariant best.None? <==> i == 0
        invariant best.Some? ==> best.value == pendingWords[i - 1] && bestScore == WordScore(best.value)
        invariant best.Some? ==> forall j :: 0 <= j < i ==> WordScore(pendingWords[j]) <= bestScore
      {
        var v := pendingWords[i];
        var score := Score(v.result);
        if best.None? || score > bestScore {
          best := Some(v);
          bestScore := score;
        }
        i := i + 1;
      }
      o := best;
      if o.Some? {
        forall w | w in pendingWords ensures WordScore(w) <= WordScore(o.value) {
          var j :| 0 <= j < |pendingWords| && pendingWords[j] == w;
        }
      }
    }

    /** PlacePendingWord: with nothing pending it fails and changes nothing. Otherwise the
        best pending word is written to the board; if it runs off the board the letters
        written so far stay and nothing else changes. Otherwise the word joins the placed
        words, the letters it lands on empty squares are taken from the rack (a failure to
        find them is ignored), the rack is redrawn from the bag, the game completes once
        rack and bag are both empty, and the queue is cleared. */
    method PlacePendingWord() returns (r: Outcome<GameError>)
      requires Valid()
      modifies this, board
      ensures Valid()
      ensures old(pendingWords) == [] ==> r == Fail(NoPendingWords) && unchanged(this) && unchanged(board)
      ensures old(pendingWords) != [] ==>
        var best := old(pendingWords)[|old(pendingWords)| - 1];
        var k := FirstWrap(old(board.grid), best.place, best.word, 0);
        var spent := PlacedSpent(old(board.grid), best.place, best.word, 0);
        && (forall w :: w in old(pendingWords) ==> WordScore(w) <= WordScore(best))
        && board == old(board) && board.grid == PlacedGrid(old(board.grid), best.place, best.word, k)
        && stealTime == old(stealTime)
        && if k < |best.word| then
             && r == Fail(InvalidPlacement(InvalidCellRange))
             && letters == old(letters) && spareLetters == old(spareLetters) && placedWords == old(placedWords)
             && pendingWords == old(pendingWords) && placeWordAt == old(placeWordAt)
             && complete == old(complete) && gameState == old(gameState)
           else
             && r == Pass
             && placedWords == old(placedWords) + [best]
             && multiset(letters) + multiset(spareLetters) ==
                (if Used(old(letters), spent).1 then Used(old(letters), spent).0 else multiset(old(letters)))
                + multiset(old(spareLetters))
             && |letters| == Min(NumPlayerLetters, |letters| + |spareLetters|)
             && (complete <==> old(complete) || (letters == [] && spareLetters == []))
             && pendingWords == [] && gameState == Idle && placeWordAt == None
    {
      var found := PickBest();
      if found.None? {
        return Fail(NoPendingWords);
      }
      var best := found.value;
      var placed := board.PlaceWord(best.place, best.word);
      if placed.Err? {
        return Fail(InvalidPlacement(placed.error));
      }
      placedWords := placedWords + [best];
      var removed := RemoveLetters(placed.value.lettersSpent);
      ResetLetters();
      if |letters| == 0 && |spareLetters| == 0 {
        complete := true;
      }
      SetGameIdle();
      return Pass;
    }

    /** TryPlacePendingWord, with the clock reading passed in: once the window has closed
        (now is after the deadline) the best pending word is placed; otherwise nothing
        happens. */
    method TryPlacePendingWord(now: int) returns (r: Outcome<GameError>)
      requires Valid()
      modifies this, board
      ensures Valid()
      ensures !(old(placeWordAt).Some? && now > old(placeWordAt).value) ==>
        r == Pass && unchanged(this) && unchanged(board)
      ensures old(placeWordAt).Some? && now > old(placeWordAt).value ==> old(pendingWords) != []
      ensures old(placeWordAt).Some? && now > old(placeWordAt).value && r.Pass? ==>
        pendingWords == [] && |placedWords| == |old(placedWords)| + 1
    {
      if placeWordAt.Some? && now > placeWordAt.value {
        r := PlacePendingWord();
        return;
      }
      return Pass;
    }

    /** GetScores: one entry per player who placed a word, with their words counted and
        their scores added, ordered by non-increasing score. */
    method GetScores() returns (scores: seq<PlayerScore>)
      ensures ByScore(scores) && multiset(scores) == multiset(Tally(placedWords))
      ensures DistinctNames(scores)
      ensures forall e :: e in scores ==>
        e.words == Count(placedWords, e.playerName) && e.score == Total(placedWords, e.playerName)
      ensures forall i :: 0 <= i < |placedWords| ==> exists e :: e in scores && e.playerName == placedWords[i].submitter
      ensures SumWords(scores) == |placedWords| && SumScores(scores) == TotalScore(placedWords)
    {
      var tally := [];
      var i := 0;
      while i < |placedWords|
        invariant 0 <= i <= |placedWords| && tally == Tally(placedWords[..i])
      {
        assert placedWords[..i + 1][..i] == placedWords[..i];
        tally := Credit(tally, placedWords[i]);
        i := i + 1;
      }
      assert placedWords[..i] == placedWords;
      scores := SortByScore(tally);
      PermutedTally(placedWords, scores);
    }
  }

  /** Any reordering of the tally still credits each entry with its player's words and
      points, and still has an entry for every submitter. */
  lemma PermutedTally(ws: seq<Word>, scores: seq<PlayerScore>)
    requires Reordered(Tally(ws), scores)
    ensures DistinctNames(scores)
    ensures SumWords(scores) == |ws| && SumScores(scores) == TotalScore(ws)
    ensures forall e :: e in scores ==> e.words == Count(ws, e.playerName) && e.score == Total(ws, e.playerName)
    ensures forall i :: 0 <= i < |ws| ==> exists e :: e in scores && e.playerName == ws[i].submitter
  {
    TallySpec(ws);
    TallySums(ws);
    var tally := Tally(ws);
    forall e | e in scores
      ensures e.words == Count(ws, e.playerName) && e.score == Total(ws, e.playerName)
    {
      assert e in multiset(tally);
      var j :| 0 <= j < |tally| && tally[j] == e;
    }
    forall i | 0 <= i < |ws| ensures exists e :: e in scores && e.playerName == ws[i].submitter {
      var name := ws[i].submitter;
      CountMember(ws, i);
      assert name in Names(tally);
      var j :| 0 <= j < |tally| && Names(tally)[j] == name;
      assert tally[j] in multiset(scores);
    }
  }

  /** A player who submitted a word has a positive count. */
  lemma {:induction false} CountMember(ws: seq<Word>, i: nat)
    requires i < |ws|
    ensures Count(ws, ws[i].submitter) > 0
    decreases |ws|
  {
    if i < |ws| - 1 {
      CountMember(ws[..|ws| - 1], i);
    }
  }
}
