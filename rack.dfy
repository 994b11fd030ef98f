/** Rack accounting shared by classic.go and scrabulous.go: how the letters a word spends are
    taken from a rack, exact tile first and a blank otherwise (getUsedLetters, hasLetters,
    removeLetters), drawing tiles from the bag, and the upper-casing of a submitted word. */
module Rack {
  import opened Letters

  // ----- getUsedLetters as a value -----

  /** One wanted letter: an exact tile if one is left, else a blank, else nothing is found. */
  function Take(counts: multiset<char>, want: char): (r: (multiset<char>, bool))
    ensures r.1 <==> counts[want] > 0 || counts[Blank] > 0
    ensures r.1 ==> |r.0| + 1 == |counts| && r.0 <= counts
    ensures !r.1 ==> r.0 == counts
    ensures counts[want] > 0 ==> r.0 == counts - multiset{want}
    ensures counts[want] == 0 && counts[Blank] > 0 ==> r.0 == counts - multiset{Blank}
  {
    if counts[want] > 0 then (counts - multiset{want}, true)
    else if counts[Blank] > 0 then (counts - multiset{Blank}, true)
    else (counts, false)
  }

  /** The counts left and the found-all flag after wants[i..], starting from counts and the
      flag so far; a letter that is not found does not stop the loop. */
  function UsedFrom(counts: multiset<char>, wants: seq<char>, i: nat, foundAll: bool): (multiset<char>, bool)
    requires i <= |wants|
    decreases |wants| - i
  {
    if i == |wants| then (counts, foundAll)
    else
      var t := Take(counts, wants[i]);
      UsedFrom(t.0, wants, i + 1, foundAll && t.1)
  }

  /** getUsedLetters: the rack's counts after taking the wanted letters, and whether every
      one of them was found. */
  function Used(rack: seq<char>, wants: seq<char>): (multiset<char>, bool) {
    UsedFrom(multiset(rack), wants, 0, true)
  }

  /** The counts only shrink, one tile per letter found; once a letter is missing the flag
      stays false; and when every letter is found exactly |wants| - i tiles are gone. */
  lemma {:induction false} UsedFromShrinks(counts: multiset<char>, wants: seq<char>, i: nat, foundAll: bool)
    requires i <= |wants|
    ensures UsedFrom(counts, wants, i, foundAll).0 <= counts
    ensures |counts| - |UsedFrom(counts, wants, i, foundAll).0| <= |wants| - i
    ensures UsedFrom(counts, wants, i, foundAll).1 ==> foundAll
    ensures UsedFrom(counts, wants, i, foundAll).1 ==>
      |UsedFrom(counts, wants, i, foundAll).0| + (|wants| - i) == |counts|
    decreases |wants| - i
  {
    if i < |wants| {
      var t := Take(counts, wants[i]);
      UsedFromShrinks(t.0, wants, i + 1, foundAll && t.1);
    }
  }

  /** Counts never go negative and, when every letter is found, the remaining counts add up
      to the rack size minus the number of letters. */
  lemma UsedCounts(rack: seq<char>, wants: seq<char>)
    ensures Used(rack, wants).0 <= multiset(rack)
    ensures Used(rack, wants).1 ==> |Used(rack, wants).0| == |rack| - |wants|
  {
    UsedFromShrinks(multiset(rack), wants, 0, true);
  }

  /** When the rack holds every wanted letter itself, all are found and exactly those tiles
      are taken, with no blank spent. */
  lemma {:induction false} UsedFromExact(counts: multiset<char>, wants: seq<char>, i: nat)
    requires i <= |wants| && multiset(wants[i..]) <= counts
    ensures UsedFrom(counts, wants, i, true) == (counts - multiset(wants[i..]), true)
    decreases |wants| - i
  {
    if i < |wants| {
      assert wants[i..] == [wants[i]] + wants[i + 1..];
      var rest := multiset(wants[i + 1..]);
      assert counts[wants[i]] > 0;
      var t := Take(counts, wants[i]);
      assert rest <= t.0;
      UsedFromExact(t.0, wants, i + 1);
      assert t.0 - rest == counts - multiset(wants[i..]);
    } else {
      assert wants[i..] == [];
      assert counts - multiset(wants[i..]) == counts;
    }
  }

  lemma UsedExact(rack: seq<char>, wants: seq<char>)
    requires multiset(wants) <= multiset(rack)
    ensures Used(rack, wants) == (multiset(rack) - multiset(wants), true)
  {
    assert wants[0..] == wants;
    UsedFromExact(multiset(rack), wants, 0);
  }

  /** Without blanks a letter can only be matched by itself: everything is found iff the rack
      holds the wanted letters. */
  lemma {:induction false} UsedFromNoBlank(counts: multiset<char>, wants: seq<char>, i: nat, foundAll: bool)
    requires i <= |wants| && counts[Blank] == 0
    ensures UsedFrom(counts, wants, i, foundAll).1 <==> foundAll && multiset(wants[i..]) <= counts
    decreases |wants| - i
  {
    if i < |wants| {
      assert wants[i..] == [wants[i]] + wants[i + 1..];
      var t := Take(counts, wants[i]);
      UsedFromNoBlank(t.0, wants, i + 1, foundAll && t.1);
      var rest := multiset(wants[i + 1..]);
      if t.1 {
        assert counts[wants[i]] > 0;
        assert (rest <= t.0) <==> (multiset(wants[i..]) <= counts) by {
          if rest <= t.0 {
            assert multiset(wants[i..]) == rest + multiset{wants[i]};
          }
          if multiset(wants[i..]) <= counts {
            forall c ensures rest[c] <= t.0[c] {
              assert multiset(wants[i..])[c] == rest[c] + (if c == wants[i] then 1 else 0);
            }
          }
        }
      } else {
        assert multiset(wants[i..])[wants[i]] > counts[wants[i]];
      }
    } else {
      assert wants[i..] == [];
    }
  }

  lemma UsedNoBlank(rack: seq<char>, wants: seq<char>)
    requires Blank !in rack
    ensures Used(rack, wants).1 <==> multiset(wants) <= multiset(rack)
  {
    assert wants[0..] == wants;
    UsedFromNoBlank(multiset(rack), wants, 0, true);
  }

  /** With blanks, for wanted letters that are not blanks themselves: each letter uses its own
      tiles while they last and a blank for every one short, so everything is found iff the
      shortfall (the wanted tiles the rack lacks) is at most the number of blanks; then the
      blanks left are the blanks minus the shortfall and every other letter keeps what the
      wanted letters did not use of it. */
  /** Taking a wanted letter's own tile leaves the shortfall and the leftovers of the
      remaining letters as they were. */
  lemma ExactStep(counts: multiset<char>, rest: multiset<char>, a: char)
    requires counts[a] > 0
    ensures (rest + multiset{a}) - counts == rest - (counts - multiset{a})
    ensures counts - (rest + multiset{a}) == (counts - multiset{a}) - rest
  {
    var t := counts - multiset{a};
    forall c ensures ((rest + multiset{a}) - counts)[c] == (rest - t)[c] {}
    forall c ensures (counts - (rest + multiset{a}))[c] == (t - rest)[c] {}
  }

  /** Spending a blank on a letter the rack lacks adds that letter to the shortfall and leaves
      the other letters' leftovers alone. */
  lemma BlankStep(counts: multiset<char>, rest: multiset<char>, a: char)
    requires counts[a] == 0 && counts[Blank] > 0 && a != Blank && rest[Blank] == 0
    ensures (rest + multiset{a}) - counts == (rest - (counts - multiset{Blank})) + multiset{a}
    ensures forall c :: c != Blank ==> (counts - (rest + multiset{a}))[c] == ((counts - multiset{Blank}) - rest)[c]
  {
    var t := counts - multiset{Blank};
    forall c ensures ((rest + multiset{a}) - counts)[c] == ((rest - t) + multiset{a})[c] {}
  }

  /** With blanks, for wanted letters that are not blanks themselves: each letter uses its own
      tiles while they last and a blank for every one short, so everything is found iff the
      shortfall (the wanted tiles the rack lacks) is at most the number of blanks; then the
      blanks left are the blanks minus the shortfall and every other letter keeps what the
      wanted letters did not use of it. */
  lemma {:induction false} UsedFromBlanks(counts: multiset<char>, wants: seq<char>, i: nat, foundAll: bool)
    requires i <= |wants| && Blank !in wants[i..]
    ensures var u := UsedFrom(counts, wants, i, foundAll);
      var short := multiset(wants[i..]) - counts;
      && (u.1 <==> foundAll && |short| <= counts[Blank])
      && (u.1 ==>
            && u.0[Blank] == counts[Blank] - |short|
            && forall c :: c != Blank ==> u.0[c] == (counts - multiset(wants[i..]))[c])
    decreases |wants| - i
  {
    if i == |wants| {
      assert wants[i..] == [];
    } else {
      var a := wants[i];
      assert wants[i..] == [a] + wants[i + 1..];
      var rest := multiset(wants[i + 1..]);
      assert multiset(wants[i..]) == rest + multiset{a};
      assert a != Blank && rest[Blank] == 0;
      var t := Take(counts, a);
      UsedFromBlanks(t.0, wants, i + 1, foundAll && t.1);
      UsedFromShrinks(t.0, wants, i + 1, foundAll && t.1);
      if counts[a] > 0 {
        ExactStep(counts, rest, a);
      } else if counts[Blank] > 0 {
        BlankStep(counts, rest, a);
      } else {
        assert (multiset(wants[i..]) - counts)[a] > 0;
      }
    }
  }

  lemma UsedWithBlanks(rack: seq<char>, wants: seq<char>)
    requires Blank !in wants
    ensures var r := multiset(rack);
      var short := multiset(wants) - r;
      && (Used(rack, wants).1 <==> |short| <= r[Blank])
      && (Used(rack, wants).1 ==>
            && Used(rack, wants).0[Blank] == r[Blank] - |short|
            && forall c :: c != Blank ==> Used(rack, wants).0[c] == (r - multiset(wants))[c])
  {
    assert wants[0..] == wants;
    UsedFromBlanks(multiset(rack), wants, 0, true);
  }

  /** getUsedLetters' loops: count the rack's tiles, then take each wanted letter in turn. */
  method GetUsedLetters(rack: seq<char>, wants: seq<char>) returns (letterMap: multiset<char>, foundAll: bool)
    ensures (letterMap, foundAll) == Used(rack, wants)
  {
    letterMap := multiset{};
    var k := 0;
    while k < |rack|
      invariant 0 <= k <= |rack| && letterMap == multiset(rack[..k])
    {
      assert rack[..k + 1] == rack[..k] + [rack[k]];
      letterMap := letterMap + multiset{rack[k]};
      k := k + 1;
    }
    assert rack[..k] == rack;
    foundAll := true;
    var i := 0;
    while i < |wants|
      invariant 0 <= i <= |wants|
      invariant UsedFrom(letterMap, wants, i, foundAll) == Used(rack, wants)
    {
      var want := wants[i];
      var found := false;
      if letterMap[want] > 0 {
        found := true;
        letterMap := letterMap - multiset{want};
      }
      if !found {
        if letterMap[Blank] > 0 {
          found := true;
          letterMap := letterMap - multiset{Blank};
        }
      }
      if !found {
        foundAll := false;
      }
      i := i + 1;
    }
  }

  /** removeLetters' rebuilding loop: one tile per count left, in an order the counts do not
      fix (the source ranges over a map). */
  method RackOf(counts: multiset<char>) returns (letters: seq<char>)
    ensures multiset(letters) == counts
  {
    letters := [];
    var left := counts;
    while left != multiset{}
      invariant multiset(letters) + left == counts
      decreases |left|
    {
      var c :| c in left;
      letters := letters + [c];
      left := left - multiset{c};
    }
  }

  // ----- drawing from the bag -----

  /** slices.Delete(bag, i, i + 1). */
  function Remove(bag: seq<char>, i: nat): (r: seq<char>)
    requires i < |bag|
    ensures |r| == |bag| - 1
    ensures multiset(r) + multiset{bag[i]} == multiset(bag)
  {
    assert bag == bag[..i] + [bag[i]] + bag[i + 1..];
    bag[..i] + bag[i + 1..]
  }

  /** Removing any tile but the last keeps the last tile last. */
  lemma RemoveKeepsLast(bag: seq<char>, i: nat)
    requires i < |bag| - 1
    ensures |Remove(bag, i)| > 0 && Remove(bag, i)[|bag| - 2] == bag[|bag| - 1]
  {
  }

  // ----- strings.ToUpper on ASCII -----

  function UpperChar(c: char): char {
    if 'a' <= c <= 'z' then (c as int - 32) as char else c
  }

  function ToUpper(s: seq<char>): (u: seq<char>)
    ensures |u| == |s|
  {
    seq(|s|, i requires 0 <= i < |s| => UpperChar(s[i]))
  }

  /** Upper-casing leaves no lower-case letter, changes nothing else, and is idempotent. */
  lemma ToUpperSpec(s: seq<char>)
    ensures forall i :: 0 <= i < |s| ==> !('a' <= ToUpper(s)[i] <= 'z')
    ensures forall i :: 0 <= i < |s| && !('a' <= s[i] <= 'z') ==> ToUpper(s)[i] == s[i]
    ensures ToUpper(ToUpper(s)) == ToUpper(s)
  {
  }
}
