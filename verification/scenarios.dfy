/**
 * Whole games put together from the contracts of GameManager and Card: a
 * grid is dealt, its cards are clicked, and the pending hide is resumed.
 */
module Scenarios {
  import opened Cards
  import opened Deck
  import opened Game

  /** A new 1-by-2 game: its deal is the one pair of id 0. */
  method DealOnePair() returns (gm: GameManager, first: Card, second: Card)
    ensures fresh(gm) && fresh(first) && fresh(second) && first != second
    ensures gm.Valid() && gm.flippedCards == [] && gm.scheduled == []
    ensures first in gm.grid && second in gm.grid
    ensures first.cardId == 0 && second.cardId == 0
    ensures !first.isFlipped && !first.isMatched && !second.isFlipped && !second.isMatched
  {
    gm := new GameManager(1, 2, 1);
    var created, outcome := gm.GenerateGrid([1, 1]);
    DealHoldsEachIdTwice(2, [1, 1]);
    assert outcome == Completed;
    first, second := created[0], created[1];
    assert first in created && second in created;
  }

  /**
   * Clicking both cards of the pair matches them: both end matched and face
   * up, and nothing is pending.
   */
  method PlayMatchingPair() returns (gm: GameManager, first: Card, second: Card)
    ensures first != second
    ensures first.isMatched && first.isFlipped && second.isMatched && second.isFlipped
    ensures gm.Valid() && gm.flippedCards == [] && gm.scheduled == []
  {
    gm, first, second := DealOnePair();
    gm.Click(first);
    gm.Click(second);
  }

  /** A new 2-by-2 game dealt without moving any id: the ids are 0, 0, 1, 1 in row-major order. */
  method DealTwoPairs() returns (gm: GameManager, first: Card, third: Card)
    ensures fresh(gm) && fresh(first) && fresh(third) && first != third
    ensures gm.Valid() && gm.flippedCards == [] && gm.scheduled == []
    ensures first in gm.grid && third in gm.grid
    ensures first.cardId == 0 && third.cardId == 1
    ensures !first.isFlipped && !first.isMatched && !third.isFlipped && !third.isMatched
  {
    gm := new GameManager(2, 2, 2);
    var draws := [0, 1, 2, 3];
    var created, outcome := gm.GenerateGrid(draws);
    DealInPlace(draws);
    assert outcome == Completed;
    first, third := created[0], created[2];
    assert first in created && third in created;
  }

  /** Draws that swap every entry with itself leave the list as it was built. */
  lemma {:induction false} ShuffledPrefixInPlace(s: seq<int>, draws: seq<int>, n: nat)
    requires n <= |s| && ValidDraws(draws, |s|)
    requires forall i :: 0 <= i < n ==> draws[i] == i
    ensures ShuffledPrefix(s, draws, n) == s
  {
    if n > 0 {
      calc {
        ShuffledPrefix(s, draws, n);
        Swap(ShuffledPrefix(s, draws, n - 1), n - 1, n - 1);
        { ShuffledPrefixInPlace(s, draws, n - 1); }
        Swap(s, n - 1, n - 1);
        { SwapInPlace(s, n - 1); }
        s;
      }
    }
  }

  lemma SwapInPlace(s: seq<int>, i: nat)
    requires i < |s|
    ensures Swap(s, i, i) == s
  {
    assert s[i := s[i]] == s;
  }

  /** So the deck of a 2-by-2 grid dealt with such draws is 0, 0, 1, 1. */
  lemma DealInPlace(draws: seq<int>)
    requires draws == [0, 1, 2, 3]
    ensures ValidDraws(draws, 4)
    ensures Deal(4, draws) == [0, 0, 1, 1]
  {
    assert Pairs(2) == [0, 0, 1, 1];
    ShuffledPrefixInPlace(Pairs(2), draws, 4);
  }

  /**
   * Clicking the cards of ids 0 and 1 is a mismatch that schedules one hide;
   * a click on a card awaiting that hide is rejected; resuming the hide turns
   * both cards face down and leaves nothing pending.
   */
  method PlayMismatch() returns (gm: GameManager, first: Card, third: Card)
    ensures first != third
    ensures !first.isFlipped && !first.isMatched && !third.isFlipped && !third.isMatched
    ensures gm.Valid() && gm.flippedCards == [] && gm.scheduled == []
  {
    gm, first, third := DealTwoPairs();
    gm.Click(first);
    gm.Click(third);
    assert gm.scheduled == [FlipBack(first, third)];
    gm.Click(first);
    gm.FireFlipBack();
  }
}
