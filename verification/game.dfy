/**
 * The match engine, GameManager: it deals the grid of cards, keeps the buffer
 * of face-up cards not yet resolved, resolves each pair as a match or a
 * mismatch, and turns mismatched cards face down again one second later.
 *
 * Modelling choices:
 * - the cards the manager instantiates under its transform are the sequence
 *   `grid`, in the order they were created (row-major);
 * - the static OnCardFlipped event, to which the manager subscribes, becomes
 *   Click: the card's OnMouseDown runs and each event it raises is handed to
 *   HandleCardFlipped;
 * - a running FlipBackAfterDelay coroutine is a FlipBack entry of
 *   `scheduled`; the scheduler resumes one of them later with FireFlipBack;
 * - Random.Range is the injected sequence `draws`.
 */
module Game {
  import opened Cards
  import opened Deck

  /** The exceptions GenerateGrid can stop with. */
  datatype GridError =
    | ArgumentOutOfRange  // `ids[index]` past the end of the list, when the grid has an odd number of cells
    | DivideByZero        // `id % cardFrontSprites.Length` with no front sprites

  datatype Outcome = Completed | Threw(error: GridError)

  /** A FlipBackAfterDelay coroutine that has started and not yet resumed. */
  datatype FlipBack = FlipBack(first: Card, second: Card)

  /** Number of cells the nested y/x loops visit. */
  function CellCount(rows: int, cols: int): (n: nat)
    ensures n > 0 <==> rows > 0 && cols > 0
    ensures n > 0 ==> n == rows * cols
  {
    if rows > 0 && cols > 0 then rows * cols else 0
  }

  class GameManager {
    const rows: int
    const cols: int
    /** The length of `cardFrontSprites`. */
    const spriteCount: nat

    var grid: seq<Card>
    var flippedCards: seq<Card>
    var scheduled: seq<FlipBack>

    /** The cards some running FlipBackAfterDelay will try to hide. */
    ghost function AwaitingHide(): set<Card>
      reads this
    {
      Awaiting(scheduled)
    }

    /** The engine invariant on the current state, except for the size of the buffer. */
    ghost predicate Consistent()
      reads this, grid
    {
      Coherent(grid, FaceUp(grid), MatchedIn(grid), flippedCards, scheduled)
    }

    /** Every face-up unmatched grid card outside `loose` is accounted for. */
    ghost predicate Tracked(loose: set<Card>)
      reads this, grid
    {
      Accounted(FaceUp(grid), MatchedIn(grid), flippedCards, scheduled, loose)
    }

    /** Between events the buffer holds at most one card. */
    ghost predicate Valid()
      reads this, grid
    {
      Consistent() && Tracked({}) && |flippedCards| <= 1
    }

    /**
     * How the pair (c1, c2) was resolved, given the pending hides `before`:
     * both stay face up; equal ids mark both matched, different ids leave
     * both unmatched and start one hide for exactly this pair.
     */
    ghost predicate Resolved(c1: Card, c2: Card, before: seq<FlipBack>)
      reads this, c1, c2
    {
      && c1.isFlipped && c2.isFlipped
      && if c1.cardId == c2.cardId then
           c1.isMatched && c2.isMatched && scheduled == before
         else
           !c1.isMatched && !c2.isMatched && scheduled == before + [FlipBack(c1, c2)]
    }

    constructor (rows: int, cols: int, spriteCount: nat)
      ensures this.rows == rows && this.cols == cols && this.spriteCount == spriteCount
      ensures grid == [] && flippedCards == [] && scheduled == []
      ensures Valid()
    {
      this.rows := rows;
      this.cols := cols;
      this.spriteCount := spriteCount;
      grid := [];
      flippedCards := [];
      scheduled := [];
    }

    /**
     * Deals a shuffled deck of pairs and instantiates one card per cell in
     * row-major order (cell (y, x) is card y * cols + x of the deal), each
     * face down and unmatched. The outcome is decided by the configuration
     * alone, as GridDealt spells out. Returns the cards it instantiated, in
     * creation order; those created before an exception remain in the grid.
     */
    method GenerateGrid(draws: seq<int>) returns (created: seq<Card>, outcome: Outcome)
      requires Valid()
      requires ValidDraws(draws, 2 * PairCount(rows * cols))
      modifies this
      ensures Valid()
      ensures flippedCards == old(flippedCards) && scheduled == old(scheduled)
      ensures grid == old(grid) + created
      ensures forall c :: c in created ==> fresh(c)
      ensures Generated(rows, cols, Deal(rows * cols, draws), created, spriteCount, outcome)
    {
      ghost var up, matched := FaceUp(grid), MatchedIn(grid);
      var ids := PairedIds(PairCount(rows * cols));
      ids := Shuffle(ids, draws);
      assert ids == Deal(rows * cols, draws);
      created, outcome := FillGrid(ids);
      assert FaceUp(grid) == up && MatchedIn(grid) == matched;
      GridGrowth(grid, created, up, matched, flippedCards, scheduled);
      FaceDownViews(grid, created);
      grid := grid + created;
      assert FaceUp(grid) == up && MatchedIn(grid) == matched;
    }

    /**
     * The nested y/x loops of GenerateGrid over the shuffled deck `ids`:
     * returns the cards instantiated, in creation order, and how the loops
     * ended.
     */
    method FillGrid(ids: seq<int>) returns (created: seq<Card>, outcome: Outcome)
      requires |ids| == 2 * PairCount(rows * cols)
      ensures forall c :: c in created ==> fresh(c)
      ensures Generated(rows, cols, ids, created, spriteCount, outcome)
    {
      ghost var width := if cols > 0 then cols else 0;
      ghost var height := if rows > 0 then rows else 0;
      ghost var cells := CellCount(rows, cols);
      assert cells == height * width;
      assert cells <= |ids| + 1 && (cells > 0 ==> |ids| <= cells);
      created := [];
      var index := 0;
      var y := 0;
      while y < rows
        invariant 0 <= y <= height
        invariant index == y * width && index <= |ids|
        invariant spriteCount > 0 || index == 0
        invariant |created| == index
        invariant forall c :: c in created ==> fresh(c)
        invariant FaceDown(created) && Dealt(created, ids, index, spriteCount)
        invariant Placed(created, rows, cols)
      {
        RowEnd(height, width, y);
        label BeforeRow:
        var row, next;
        row, next, outcome := FillRow(ids, index, y);
        forall i, j | 0 <= i < |created| && 0 <= j < |row|
          ensures created[i] != row[j]
        {
          assert old@BeforeRow(allocated(created[i]));
          assert row[j] in row;
        }
        ghost var dealt := match outcome
                           case Completed => width
                           case Threw(ArgumentOutOfRange) => |ids| - index
                           case Threw(DivideByZero) => 0;
        DealtJoin(created, row, ids, dealt, spriteCount);
        FaceDownJoin(created, row);
        assert row != [] ==> width == cols;
        PlacedJoin(created, row, rows, cols, y);
        created := created + row;
        if outcome.Threw? {
          return;
        }
        index := next;
        y := y + 1;
      }
      return created, Completed;
    }

    /**
     * The inner loop of GenerateGrid for row y: one new card per column,
     * placed in cell (y, x) and taking ids from `index` on. Returns the cards
     * created, in order.
     */
    method FillRow(ids: seq<int>, index: nat, y: int) returns (row: seq<Card>, next: nat, outcome: Outcome)
      requires index <= |ids|
      ensures forall c :: c in row ==> fresh(c)
      ensures FaceDown(row)
      ensures forall j :: 0 <= j < |row| ==> row[j].gridY == y && row[j].gridX == j < cols
      ensures var width := if cols > 0 then cols else 0;
              match outcome
              case Completed =>
                && next == index + width <= |ids| && (width == 0 || spriteCount > 0)
                && |row| == width
                && Dealt(row, ids[index..], width, spriteCount)
              case Threw(ArgumentOutOfRange) =>
                && index + width > |ids| && (index == |ids| || spriteCount > 0)
                && |row| == |ids| - index + 1
                && Dealt(row, ids[index..], |ids| - index, spriteCount)
              case Threw(DivideByZero) =>
                && index < |ids| && width > 0 && spriteCount == 0
                && |row| == 1 && row[0].cardId == ids[index]
    {
      ghost var width := if cols > 0 then cols else 0;
      row := [];
      next := index;
      var x := 0;
      while x < cols
        invariant 0 <= x <= width
        invariant next == index + x <= |ids|
        invariant spriteCount > 0 || x == 0
        invariant |row| == x
        invariant forall c :: c in row ==> fresh(c)
        invariant FaceDown(row) && Dealt(row, ids[index..], x, spriteCount)
        invariant forall j :: 0 <= j < |row| ==> row[j].gridY == y && row[j].gridX == j
      {
        var card;
        card, outcome := PlaceCard(ids, next, y, x);
        row := row + [card];
        if outcome.Threw? {
          return;
        }
        next := next + 1;
        x := x + 1;
      }
      return row, next, Completed;
    }

    /**
     * One iteration of the inner loop of GenerateGrid: instantiate a card,
     * place it in cell (y, x), give it `ids[index]` and the matching front
     * sprite, and show its back.
     */
    method PlaceCard(ids: seq<int>, index: nat, y: int, x: int) returns (card: Card, outcome: Outcome)
      requires index <= |ids|
      ensures outcome == if index == |ids| then Threw(ArgumentOutOfRange)
                         else if spriteCount == 0 then Threw(DivideByZero)
                         else Completed
      ensures fresh(card) && !card.isFlipped && !card.isMatched
      ensures card.gridY == y && card.gridX == x
      ensures index < |ids| ==> card.cardId == ids[index]
      ensures outcome == Completed ==> card.frontSprite == ids[index] % spriteCount
    {
      card := new Card();
      card.gridY, card.gridX := y, x;
      if index >= |ids| {
        return card, Threw(ArgumentOutOfRange);
      }
      var id := ids[index];
      card.cardId := id;
      if spriteCount == 0 {
        return card, Threw(DivideByZero);
      }
      card.frontSprite := id % spriteCount;
      card.ShowBack();
      return card, Completed;
    }

    /**
     * A click on a grid card: its OnMouseDown runs, and the event it raises,
     * if any, is handled. A rejected click changes nothing; an accepted one
     * turns the card face up and either buffers it or resolves it against the
     * buffered card.
     */
    method Click(card: Card)
      requires Valid() && card in grid
      modifies this, card`isFlipped, card`isMatched, flippedCards`isMatched
      ensures Valid()
      ensures grid == old(grid)
      ensures old(card.isMatched || card.isFlipped) ==>
                && flippedCards == old(flippedCards) && scheduled == old(scheduled)
                && unchanged(card) && unchanged(flippedCards)
      ensures !old(card.isMatched || card.isFlipped) && old(flippedCards) == [] ==>
                flippedCards == [card] && scheduled == old(scheduled)
                && card.isFlipped && !card.isMatched
      ensures !old(card.isMatched || card.isFlipped) && |old(flippedCards)| == 1 ==>
                flippedCards == [] && Resolved(old(flippedCards[0]), card, old(scheduled))
    {
      ghost var up, matched := FaceUp(grid), MatchedIn(grid);
      var events := card.OnMouseDown();
      if events == [card] {
        assert FaceUp(grid) == up + {card};
        assert MatchedIn(grid) == matched;
        FlipKeepsInvariant(grid, up, matched, flippedCards, scheduled, card);
        HandleCardFlipped(card);
      }
    }

    /** Buffers a card that has just turned face up; a second card triggers CheckMatch. */
    method HandleCardFlipped(card: Card)
      requires Consistent() && Tracked({card}) && |flippedCards| <= 1
      requires card in grid && card.isFlipped && !card.isMatched
      requires card !in flippedCards && card !in AwaitingHide()
      modifies this, card`isMatched, flippedCards`isMatched
      ensures Valid()
      ensures grid == old(grid)
      ensures old(flippedCards) == [] ==>
                flippedCards == [card] && scheduled == old(scheduled) && !card.isMatched
      ensures |old(flippedCards)| == 1 ==>
                flippedCards == [] && Resolved(old(flippedCards[0]), card, old(scheduled))
    {
      BufferKeepsInvariant(grid, FaceUp(grid), MatchedIn(grid), flippedCards, scheduled, card);
      flippedCards := flippedCards + [card];
      if |flippedCards| == 2 {
        CheckMatch();
      }
    }

    /**
     * Resolves the two buffered cards: a match marks both matched, a
     * mismatch starts one FlipBackAfterDelay for the pair; the buffer is
     * emptied either way.
     */
    method CheckMatch()
      requires Consistent() && Tracked({}) && |flippedCards| == 2
      modifies this, flippedCards`isMatched
      ensures Valid()
      ensures grid == old(grid) && flippedCards == []
      ensures Resolved(old(flippedCards[0]), old(flippedCards[1]), old(scheduled))
    {
      ghost var up, matched := FaceUp(grid), MatchedIn(grid);
      var card1 := flippedCards[0];
      var card2 := flippedCards[1];
      assert card1 in flippedCards && card2 in flippedCards;
      assert card1.isFlipped && !card1.isMatched && card2.isFlipped && !card2.isMatched;
      if card1.cardId == card2.cardId {
        MatchKeepsInvariant(grid, up, matched, flippedCards, scheduled);
        card1.SetMatched();
        card2.SetMatched();
        assert MatchedIn(grid) == matched + {card1, card2};
      } else {
        MismatchKeepsInvariant(grid, up, matched, flippedCards, scheduled);
        scheduled := scheduled + [FlipBack(card1, card2)];
      }
      flippedCards := [];
    }

    /**
     * The scheduler resumes the oldest pending FlipBackAfterDelay once its
     * one-second delay is over (every hide waits the same delay, so they
     * resume in the order they started): the entry is dropped and the
     * coroutine body runs. In every reachable state neither card is matched
     * by then, so both turn face down.
     */
    method FireFlipBack()
      requires Valid() && scheduled != []
      modifies this, scheduled[0].first`isFlipped, scheduled[0].second`isFlipped
      ensures Valid()
      ensures grid == old(grid) && flippedCards == old(flippedCards)
      ensures scheduled == old(scheduled[1..])
      ensures !old(scheduled[0]).first.isFlipped && !old(scheduled[0]).second.isFlipped
    {
      var fb := scheduled[0];
      TailKeepsInvariant(grid, FaceUp(grid), MatchedIn(grid), flippedCards, scheduled);
      scheduled := scheduled[1..];
      FlipBackAfterDelay(fb.first, fb.second);
    }

    /**
     * The body of FlipBackAfterDelay after its one-second wait: each card is
     * turned face down unless it is matched by now, in which case it is left
     * as it is.
     */
    method FlipBackAfterDelay(c1: Card, c2: Card)
      requires Consistent() && Tracked({c1, c2}) && |flippedCards| <= 1
      requires c1 in grid && c1 !in flippedCards && c1 !in AwaitingHide()
      requires c2 in grid && c2 !in flippedCards && c2 !in AwaitingHide()
      modifies c1`isFlipped, c2`isFlipped
      ensures Valid()
      ensures !old(c1.isMatched) ==> !c1.isFlipped
      ensures !old(c2.isMatched) ==> !c2.isFlipped
      ensures old(c1.isMatched) ==> c1.isFlipped == old(c1.isFlipped)
      ensures old(c2.isMatched) ==> c2.isFlipped == old(c2.isFlipped)
    {
      ghost var up, matched := FaceUp(grid), MatchedIn(grid);
      HideKeepsInvariant(grid, up, matched, flippedCards, scheduled, c1, c2);
      if !c1.IsMatched() {
        c1.ShowBack();
      }
      if !c2.IsMatched() {
        c2.ShowBack();
      }
      assert FaceUp(grid) == up - ({c1, c2} - matched);
      assert MatchedIn(grid) == matched;
    }
  }

  /** The grid cards that are face up. */
  ghost function FaceUp(grid: seq<Card>): set<Card>
    reads grid`isFlipped
  {
    set c | c in grid && c.isFlipped
  }

  /** The grid cards that are matched. */
  ghost function MatchedIn(grid: seq<Card>): set<Card>
    reads grid`isMatched
  {
    set c | c in grid && c.isMatched
  }

  /**
   * The engine invariant over the face-up cards `up` and the matched cards
   * `matched` of the grid, except for the size of the buffer: every matched
   * card is face up; the buffered cards are distinct grid cards, face up,
   * unmatched and not awaiting a hide; every pending hide names two
   * distinct grid cards, face up and unmatched; and no card awaits two hides.
   */
  ghost predicate Coherent(grid: seq<Card>, up: set<Card>, matched: set<Card>, buffer: seq<Card>, hides: seq<FlipBack>)
  {
    && matched <= up
    && (forall i, j :: 0 <= i < j < |buffer| ==> buffer[i] != buffer[j])
    && (forall c :: c in buffer ==> c in grid && c in up && c !in matched && c !in Awaiting(hides))
    && (forall k :: 0 <= k < |hides| ==> PendingHide(grid, up, matched, hides[k]))
    && (forall k, l :: 0 <= k < l < |hides| ==>
          {hides[k].first, hides[k].second} !! {hides[l].first, hides[l].second})
  }

  /** Two distinct grid cards, both still face up and unmatched. */
  ghost predicate PendingHide(grid: seq<Card>, up: set<Card>, matched: set<Card>, fb: FlipBack)
  {
    && fb.first in grid && fb.second in grid && fb.first != fb.second
    && fb.first in up && fb.first !in matched
    && fb.second in up && fb.second !in matched
  }

  /**
   * No card is left face up for nothing: a face-up unmatched card outside
   * `loose` is in the buffer or awaits a hide.
   */
  ghost predicate Accounted(up: set<Card>, matched: set<Card>, buffer: seq<Card>, hides: seq<FlipBack>, loose: set<Card>)
  {
    forall c :: c in up && c !in matched && c !in loose ==> c in buffer || c in Awaiting(hides)
  }

  /** Adding cards to the grid keeps the engine invariant when the face-up and matched cards stay the same. */
  lemma GridGrowth(grid: seq<Card>, created: seq<Card>, up: set<Card>, matched: set<Card>, buffer: seq<Card>, hides: seq<FlipBack>)
    requires Coherent(grid, up, matched, buffer, hides)
    ensures Coherent(grid + created, up, matched, buffer, hides)
  {
  }

  /** New face-down cards add nothing to the face-up and matched cards. */
  lemma FaceDownViews(grid: seq<Card>, created: seq<Card>)
    requires FaceDown(created)
    ensures FaceUp(grid + created) == FaceUp(grid)
    ensures MatchedIn(grid + created) == MatchedIn(grid)
  {
  }

  /**
   * A face-down unmatched grid card that turns face up is in neither the
   * buffer nor a pending hide, and the invariant holds with it loose.
   */
  lemma FlipKeepsInvariant(grid: seq<Card>, up: set<Card>, matched: set<Card>, buffer: seq<Card>, hides: seq<FlipBack>, card: Card)
    requires Coherent(grid, up, matched, buffer, hides) && Accounted(up, matched, buffer, hides, {})
    requires card in grid && card !in up && card !in matched
    ensures card !in buffer && card !in Awaiting(hides)
    ensures Coherent(grid, up + {card}, matched, buffer, hides)
    ensures Accounted(up + {card}, matched, buffer, hides, {card})
  {
    forall fb | fb in hides
      ensures fb.first != card && fb.second != card
    {
      var k :| 0 <= k < |hides| && hides[k] == fb;
      assert PendingHide(grid, up, matched, hides[k]);
    }
  }

  /** Buffering a loose face-up card keeps the invariant, now with nothing loose. */
  lemma BufferKeepsInvariant(grid: seq<Card>, up: set<Card>, matched: set<Card>, buffer: seq<Card>, hides: seq<FlipBack>, card: Card)
    requires Coherent(grid, up, matched, buffer, hides) && Accounted(up, matched, buffer, hides, {card})
    requires card in grid && card in up && card !in matched
    requires card !in buffer && card !in Awaiting(hides)
    ensures Coherent(grid, up, matched, buffer + [card], hides)
    ensures Accounted(up, matched, buffer + [card], hides, {})
  {
  }

  /** Marking the two buffered cards matched, with the buffer then emptied, keeps the invariant. */
  lemma MatchKeepsInvariant(grid: seq<Card>, up: set<Card>, matched: set<Card>, buffer: seq<Card>, hides: seq<FlipBack>)
    requires Coherent(grid, up, matched, buffer, hides) && Accounted(up, matched, buffer, hides, {})
    requires |buffer| == 2
    ensures Coherent(grid, up, matched + {buffer[0], buffer[1]}, [], hides)
    ensures Accounted(up, matched + {buffer[0], buffer[1]}, [], hides, {})
  {
  }

  /**
   * Scheduling a hide for the two buffered cards, with the buffer then
   * emptied, keeps the invariant.
   */
  lemma MismatchKeepsInvariant(grid: seq<Card>, up: set<Card>, matched: set<Card>, buffer: seq<Card>, hides: seq<FlipBack>)
    requires Coherent(grid, up, matched, buffer, hides) && Accounted(up, matched, buffer, hides, {})
    requires |buffer| == 2
    ensures Coherent(grid, up, matched, [], hides + [FlipBack(buffer[0], buffer[1])])
    ensures Accounted(up, matched, [], hides + [FlipBack(buffer[0], buffer[1])], {})
  {
  }

  /**
   * Dropping the oldest hide leaves its two cards face up, unmatched, loose
   * and outside the buffer and the remaining hides.
   */
  lemma TailKeepsInvariant(grid: seq<Card>, up: set<Card>, matched: set<Card>, buffer: seq<Card>, hides: seq<FlipBack>)
    requires Coherent(grid, up, matched, buffer, hides) && Accounted(up, matched, buffer, hides, {})
    requires hides != []
    ensures var fb := hides[0];
            && PendingHide(grid, up, matched, fb)
            && fb.first !in buffer && fb.second !in buffer
            && fb.first !in Awaiting(hides[1..]) && fb.second !in Awaiting(hides[1..])
            && Coherent(grid, up, matched, buffer, hides[1..])
            && Accounted(up, matched, buffer, hides[1..], {fb.first, fb.second})
  {
  }

  /**
   * Turning the loose cards c1 and c2 face down, each unless it is matched,
   * restores the invariant with nothing loose.
   */
  lemma HideKeepsInvariant(grid: seq<Card>, up: set<Card>, matched: set<Card>, buffer: seq<Card>, hides: seq<FlipBack>, c1: Card, c2: Card)
    requires Coherent(grid, up, matched, buffer, hides) && Accounted(up, matched, buffer, hides, {c1, c2})
    requires c1 !in buffer && c1 !in Awaiting(hides)
    requires c2 !in buffer && c2 !in Awaiting(hides)
    ensures Coherent(grid, up - ({c1, c2} - matched), matched, buffer, hides)
    ensures Accounted(up - ({c1, c2} - matched), matched, buffer, hides, {})
  {
  }

  /** The cards named by the hides in `s`. */
  ghost function Awaiting(s: seq<FlipBack>): set<Card>
  {
    (set fb | fb in s :: fb.first) + (set fb | fb in s :: fb.second)
  }

  /** Distinct cards, all face down and unmatched. */
  ghost predicate FaceDown(cards: seq<Card>)
    reads cards
  {
    && (forall i, j :: 0 <= i < j < |cards| ==> cards[i] != cards[j])
    && (forall i :: 0 <= i < |cards| ==> !cards[i].isFlipped && !cards[i].isMatched)
  }

  /**
   * The cards GenerateGrid creates for a rows-by-cols grid dealt from
   * `deck`: distinct, face down and unmatched, each in its own cell in
   * row-major order, carrying the deck as GridDealt says.
   */
  ghost predicate Generated(rows: int, cols: int, deck: seq<int>, created: seq<Card>, spriteCount: nat, outcome: Outcome)
    reads created
  {
    && FaceDown(created)
    && Placed(created, rows, cols)
    && GridDealt(CellCount(rows, cols), deck, created, spriteCount, outcome)
  }

  /**
   * What GenerateGrid leaves behind for a grid of `cells` cells dealt from
   * `deck`, with `spriteCount` front sprites:
   * - no cells: nothing is created, whatever the sprites;
   * - an even cell count with at least one sprite: every cell gets its deck
   *   entry;
   * - a single cell: the deck is empty, so the first read of `ids` stops the
   *   loops with ArgumentOutOfRange, whatever the sprites;
   * - an odd cell count of 3 or more with at least one sprite: every card is
   *   created, but the last one finds no id left and stops the loops with
   *   ArgumentOutOfRange;
   * - two or more cells and no sprite: the first card gets its id and then
   *   stops the loops with DivideByZero.
   */
  ghost predicate GridDealt(cells: nat, deck: seq<int>, created: seq<Card>, spriteCount: nat, outcome: Outcome)
    reads created
  {
    match outcome
    case Completed =>
      && (cells == 0 || (cells % 2 == 0 && spriteCount > 0))
      && |created| == cells
      && Dealt(created, deck, cells, spriteCount)
    case Threw(ArgumentOutOfRange) =>
      && cells % 2 == 1 && (cells == 1 || spriteCount > 0)
      && |created| == cells
      && Dealt(created, deck, cells - 1, spriteCount)
    case Threw(DivideByZero) =>
      && cells >= 2 && spriteCount == 0
      && |created| == 1 && |deck| > 0
      && created[0].cardId == deck[0]
  }

  /**
   * Each card sits in its own cell of a rows-by-cols grid, in creation
   * order: card k is in the cell (y, x) whose running index is k.
   */
  ghost predicate Placed(cards: seq<Card>, rows: int, cols: int)
    reads cards
  {
    forall k :: 0 <= k < |cards| ==>
      && 0 <= cards[k].gridY < rows && 0 <= cards[k].gridX < cols
      && CellIndex(cols, cards[k].gridY, cards[k].gridX) == k
  }

  /** Appending row y, placed column by column, to the rows before it keeps the placement. */
  lemma PlacedJoin(first: seq<Card>, row: seq<Card>, rows: int, cols: int, y: int)
    requires Placed(first, rows, cols) && 0 <= y < rows
    requires row != [] ==> |first| == CellIndex(cols, y, 0)
    requires forall j :: 0 <= j < |row| ==> row[j].gridY == y && row[j].gridX == j < cols
    ensures Placed(first + row, rows, cols)
  {
    var all := first + row;
    forall k | 0 <= k < |all|
      ensures 0 <= all[k].gridY < rows && 0 <= all[k].gridX < cols
      ensures CellIndex(cols, all[k].gridY, all[k].gridX) == k
    {
      if k < |first| {
        assert all[k] == first[k];
      } else {
        assert all[k] == row[k - |first|];
      }
    }
  }

  /**
   * A completely dealt grid is filled in row-major order, one card per cell:
   * card k sits in cell (k / cols, k % cols), and every cell (y, x) of the
   * grid holds card y * cols + x, which carries deck entry y * cols + x.
   */
  lemma RowMajorGrid(rows: int, cols: int, cards: seq<Card>, deck: seq<int>, spriteCount: nat)
    requires Placed(cards, rows, cols) && |cards| == CellCount(rows, cols)
    requires Dealt(cards, deck, |cards|, spriteCount)
    ensures forall k :: 0 <= k < |cards| ==> cards[k].gridY == k / cols && cards[k].gridX == k % cols
    ensures forall y, x :: 0 <= y < rows && 0 <= x < cols ==>
              && 0 <= CellIndex(cols, y, x) < |cards|
              && cards[CellIndex(cols, y, x)].gridY == y && cards[CellIndex(cols, y, x)].gridX == x
              && cards[CellIndex(cols, y, x)].cardId == deck[CellIndex(cols, y, x)]
  {
    forall k | 0 <= k < |cards|
      ensures cards[k].gridY == k / cols && cards[k].gridX == k % cols
    {
      RowMajorCovers(rows, cols, k);
      RowMajorInjective(cols, cards[k].gridY, cards[k].gridX, k / cols, k % cols);
    }
    forall y, x | 0 <= y < rows && 0 <= x < cols
      ensures 0 <= CellIndex(cols, y, x) < |cards|
      ensures cards[CellIndex(cols, y, x)].gridY == y && cards[CellIndex(cols, y, x)].gridX == x
    {
      RowMajorCell(rows, cols, y, x);
      var k := CellIndex(cols, y, x);
      RowMajorInjective(cols, cards[k].gridY, cards[k].gridX, y, x);
    }
  }

  /** The ids the cards carry, in order. */
  ghost function Ids(cards: seq<Card>): seq<int>
    reads cards
  {
    seq(|cards|, k reads cards requires 0 <= k < |cards| => cards[k].cardId)
  }

  /**
   * A grid that GenerateGrid completed shows every id in [0, cells / 2) on
   * exactly two cards and no other id, and every card's front sprite index
   * lies inside the sprite array.
   */
  lemma CompletedGridHoldsPairs(rows: int, cols: int, draws: seq<int>, created: seq<Card>, spriteCount: nat)
    requires ValidDraws(draws, 2 * PairCount(rows * cols))
    requires GridDealt(CellCount(rows, cols), Deal(rows * cols, draws), created, spriteCount, Completed)
    ensures forall v :: multiset(Ids(created))[v] == if 0 <= v < CellCount(rows, cols) / 2 then 2 else 0
    ensures forall k :: 0 <= k < |created| ==> 0 <= created[k].frontSprite < spriteCount
  {
    var cells := CellCount(rows, cols);
    if cells == 0 {
      assert Ids(created) == [];
    } else {
      var deck := Deal(rows * cols, draws);
      DealHoldsEachIdTwice(rows * cols, draws);
      assert Ids(created) == deck;
    }
  }

  /**
   * The first n cards carry the first n ids, in order, each with front
   * sprite `id % spriteCount`.
   */
  ghost predicate Dealt(cards: seq<Card>, ids: seq<int>, n: nat, spriteCount: nat)
    reads cards
  {
    && n <= |cards| && n <= |ids|
    && forall k :: 0 <= k < n ==>
         && spriteCount > 0
         && cards[k].cardId == ids[k]
         && cards[k].frontSprite == ids[k] % spriteCount
  }

  lemma DealtJoin(first: seq<Card>, second: seq<Card>, ids: seq<int>, m: nat, spriteCount: nat)
    requires |first| <= |ids| && Dealt(first, ids, |first|, spriteCount)
    requires Dealt(second, ids[|first|..], m, spriteCount)
    ensures Dealt(first + second, ids, |first| + m, spriteCount)
  {
    var n := |first|;
    var all := first + second;
    forall k | 0 <= k < n + m
      ensures spriteCount > 0 && all[k].cardId == ids[k] && all[k].frontSprite == ids[k] % spriteCount
    {
      if k < n {
        assert all[k] == first[k];
      } else {
        assert all[k] == second[k - n];
        assert ids[n..][k - n] == ids[k];
      }
    }
  }

  lemma FaceDownJoin(first: seq<Card>, second: seq<Card>)
    requires FaceDown(first) && FaceDown(second)
    requires forall i, j :: 0 <= i < |first| && 0 <= j < |second| ==> first[i] != second[j]
    ensures FaceDown(first + second)
  {
  }
}
