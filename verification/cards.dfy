/**
 * One card of the grid. It holds its id, the index of its front sprite in the
 * manager's sprite array, and two private flags: face up, and matched. The
 * card itself holds no game logic; a click on it is guarded and, when
 * accepted, turns it face up and emits one "card flipped" event.
 */
module Cards {

  class Card {
    var cardId: int
    /** Stands for the `frontSprite` reference: its index in the manager's sprite array. */
    var frontSprite: int
    /**
     * Stand for `transform.localPosition`: the row y and the column x of the
     * grid cell the card was placed in (the position itself is float
     * arithmetic on these two).
     */
    var gridY: int
    var gridX: int
    var isFlipped: bool
    var isMatched: bool

    /** A freshly instantiated card: id 0, at the origin, face down, unmatched. */
    constructor ()
      ensures cardId == 0 && frontSprite == 0 && gridY == 0 && gridX == 0
      ensures !isFlipped && !isMatched
    {
      cardId := 0;
      frontSprite := 0;
      gridY := 0;
      gridX := 0;
      isFlipped := false;
      isMatched := false;
    }

    /**
     * A mouse click. A matched or face-up card ignores it and emits nothing;
     * otherwise the card flips face up and emits exactly one event carrying
     * itself. The returned sequence is the list of events raised.
     */
    method OnMouseDown() returns (events: seq<Card>)
      modifies this`isFlipped
      ensures old(isMatched || isFlipped) ==> events == [] && isFlipped == old(isFlipped)
      ensures !old(isMatched || isFlipped) ==> events == [this] && isFlipped
    {
      if isMatched || isFlipped {
        return [];
      }
      Flip();
      events := [this];
    }

    /** Turns the card face up; applying it twice is the same as once. */
    method Flip()
      modifies this`isFlipped
      ensures isFlipped
    {
      isFlipped := true;
    }

    /** Turns the card face down, whether or not it is matched. */
    method ShowBack()
      modifies this`isFlipped
      ensures !isFlipped
    {
      isFlipped := false;
    }

    /** Marks the card matched; no method ever clears this flag. */
    method SetMatched()
      modifies this`isMatched
      ensures isMatched
    {
      isMatched := true;
    }

    function IsFlipped(): bool
      reads this
    {
      isFlipped
    }

    function IsMatched(): bool
      reads this
    {
      isMatched
    }
  }
}
