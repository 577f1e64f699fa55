# Memory-matching game engine

A Dafny model of the game-state engine of a Unity memory-matching card game.
The model has three parts, one module each, plus the deck the grid is dealt from.

- `Scoring` (`scoring.dfy`) models `ScoreManager`. It keeps one C# `int` score. `AddScore` and `SubtractScore` update it in place, with no clamp, so it can go negative. C# `int` arithmetic is unchecked, so both wrap around at 32 bits; `Wrap32` writes that out. `CurrentScore` is a `reads this` function, so reading it cannot change anything.
- `Cards` (`cards.dfy`) models `Card`. A card is a class with its id, the index of its front sprite, the grid cell `(gridY, gridX)` its position is computed from, and the two flags `isFlipped` and `isMatched`.
  - `OnMouseDown` ignores a click on a matched or face-up card. Otherwise it flips the card and returns the events it raised: exactly one, carrying the card.
  - `Flip`, `ShowBack` and `SetMatched` are setters. Each may change only its own flag, as its `modifies` clause says. So no card method changes `cardId`, and none clears `isMatched`.
  - `IsFlipped` and `IsMatched` are plain `reads this` functions.
- `Deck` (`deck.dfy`) models the id list `GenerateGrid` builds before it creates any card.
  - For a total of `rows * cols` cells it lists `0, 0, 1, 1, …, p-1, p-1`, where `p = total / 2` (`PairedIds`, against the reference function `Pairs`).
  - It then shuffles that list with Fisher–Yates swaps (`Shuffle`, against `Shuffled`).
  - `Random.Range(i, n)` becomes an injected sequence `draws` with `i <= draws[i] < n`.
  - The lemmas prove that every id in `[0, p)` occurs exactly twice before and after the shuffle, and that the shuffle is a permutation. They also prove the row-major addressing facts of the nested grid loops: cell (y, x) reads entry `y * cols + x`, and that map between cells and entries is one-to-one.
- `Game` (`game.dfy`) models `GameManager` as a class.
  - `flippedCards` is a field of type `seq<Card>`.
  - The cards instantiated under the manager's transform are the sequence `grid`. `GenerateGrid` also returns the cards it created, so a caller can click them.
  - Each running `FlipBackAfterDelay` coroutine is an entry of `scheduled`.
  - `GenerateGrid` pairs, shuffles and deals the ids. It creates one card per cell in row-major order, each face down and unmatched, placed in its cell, with front sprite `id % spriteCount`. The outcome is decided by the configuration alone:
    - no cells (a non-positive `rows` or `cols`): nothing is created, whatever the sprites;
    - an even cell count with at least one sprite: every cell gets its deck entry;
    - a single cell: the deck is empty, so the first read of `ids` throws `ArgumentOutOfRangeException` (the indexer of `List<int>`), whatever the sprites;
    - an odd cell count of 3 or more with at least one sprite: every card is created, but the last card finds no id left and the loops stop with `ArgumentOutOfRangeException`;
    - two or more cells and an empty sprite array: the first card gets its id, then `id % 0` throws `DivideByZeroException`.
  - The static `OnCardFlipped` event is a direct call: `Click` runs the card's `OnMouseDown` and hands each raised event to `HandleCardFlipped`. That method buffers the card and calls `CheckMatch` once two are buffered.
  - `CheckMatch` marks an equal-id pair matched, or starts a delayed hide for a different-id pair. Either way it empties the buffer.
  - `FireFlipBack` is the scheduler resuming the oldest pending hide after its delay. `FlipBackAfterDelay` is the coroutine body: it turns each of its two cards face down unless the card is matched by then.
  - The invariant `Valid` holds after every operation:
    - every matched card is face up;
    - the buffer holds at most one card between events, and never more than two;
    - the buffered cards are distinct, face up, unmatched and not awaiting a hide;
    - every pending hide names two distinct face-up unmatched cards;
    - no card awaits two hides;
    - every face-up unmatched card is either buffered or awaiting a hide.
  - It follows that the two cards `CheckMatch` compares are distinct. It also follows that the `!IsMatched` guards of `FlipBackAfterDelay` always pass in reachable states, because a card that awaits a hide can no longer be clicked and therefore cannot be matched.
- `Scenarios` (`scenarios.dfy`) puts the contracts together into two short games on concrete deals: a matching pair, and a mismatch whose pending hide is resumed.
- C# `%` truncates toward zero and Dafny's `%` is Euclidean. The two agree here because ids are never negative.

## Model

| member | source | states |
|---|---|---|
| Scoring.Wrap32 | Assets/Scripts/ScoreManager.cs:16 | the unchecked C# `int` result: an in-range value is kept, and any value is changed by a multiple of 2^32 only |
| Scoring.WrapPeriodic | Assets/Scripts/ScoreManager.cs:16 | wrapping ignores whole multiples of 2^32 |
| Scoring.AddThenSubtractRestores | Assets/Scripts/ScoreManager.cs:16-22 | `AddScore(a)` followed by `SubtractScore(a)` restores the score, even when the addition wrapped |
| Scoring.ScoreManager.constructor | Assets/Scripts/ScoreManager.cs:7 | the score starts at 0 |
| Scoring.ScoreManager.AddScore | Assets/Scripts/ScoreManager.cs:14-18 | the score becomes old + amount, with 32-bit wrap-around; exact when in range; no clamp |
| Scoring.ScoreManager.SubtractScore | Assets/Scripts/ScoreManager.cs:20-24 | the score becomes old - amount, with 32-bit wrap-around; exact when in range, so it may go negative |
| Cards.Card.constructor | Assets/Scripts/Card.cs:11-12 | a new card is face down and unmatched |
| Cards.Card.OnMouseDown | Assets/Scripts/Card.cs:22-28 | a matched or face-up card raises no event and keeps its state; otherwise the card turns face up and raises exactly one event carrying itself; `isMatched` and `cardId` never change |
| Cards.Card.Flip | Assets/Scripts/Card.cs:30-34 | the card is face up afterwards, whatever it was before (idempotent); only `isFlipped` may change |
| Cards.Card.ShowBack | Assets/Scripts/Card.cs:36-40 | the card is face down afterwards, even if matched; only `isFlipped` may change |
| Cards.Card.SetMatched | Assets/Scripts/Card.cs:42-45 | the card is matched afterwards; only `isMatched` may change, and no method clears it |
| Deck.PairCount | Assets/Scripts/GameManager.cs:28-29 | the id loop adds half the total, rounded down, when the total is positive, and nothing otherwise |
| Deck.PairsStep | Assets/Scripts/GameManager.cs:29-33 | one more loop round appends the pair `[p, p]` to the reference list |
| Deck.PairsHoldEachIdTwice | Assets/Scripts/GameManager.cs:27-33 | the unshuffled list has 2p entries and holds each id in `[0, p)` exactly twice and nothing else |
| Deck.PairedIds | Assets/Scripts/GameManager.cs:27-33 | the pairing loop yields the reference list, in which each id below p occurs exactly twice |
| Deck.Swap | Assets/Scripts/GameManager.cs:39 | the tuple swap exchanges entries i and j and leaves every other entry alone, so it keeps the length and the multiset of the list |
| Deck.ShuffledPrefix | Assets/Scripts/GameManager.cs:36-40 | each prefix of the swap loop keeps the length of the list |
| Deck.ShuffledPrefixPermutes | Assets/Scripts/GameManager.cs:36-40 | every prefix of the swap loop is a permutation of its input, for any valid draws |
| Deck.Shuffle | Assets/Scripts/GameManager.cs:36-40 | the in-place Fisher–Yates loop computes the reference shuffle and keeps the length |
| Deck.DealHoldsEachIdTwice | Assets/Scripts/GameManager.cs:27-40 | the shuffled deck has 2p entries, all in `[0, p)`, each value in `[0, p)` exactly twice, for any valid draws |
| Deck.RowMajorCell | Assets/Scripts/GameManager.cs:46-63 | the running index of cell (y, x), `y * cols + x`, lies below `rows * cols` |
| Deck.RowEnd | Assets/Scripts/GameManager.cs:47-63 | the running index reaches `(y + 1) * cols <= rows * cols` after row y |
| Deck.RowMajorInjective | Assets/Scripts/GameManager.cs:46-63 | two different cells have different running indexes |
| Deck.RowMajorCovers | Assets/Scripts/GameManager.cs:46-63 | every index k below `rows * cols` is the running index of the cell `(k / cols, k % cols)` of the grid |
| Game.RowMajorGrid | Assets/Scripts/GameManager.cs:46-63 | in a completely dealt grid card k sits in cell `(k / cols, k % cols)`, and every cell (y, x) holds card `y * cols + x`, which carries deck entry `y * cols + x`: cells and cards correspond one to one |
| Game.CellCount | Assets/Scripts/GameManager.cs:47-49 | the nested loops visit `rows * cols` cells when both are positive, and none otherwise |
| Game.CompletedGridHoldsPairs | Assets/Scripts/GameManager.cs:27-62 | after a completed deal, every id in `[0, cells / 2)` is on exactly two cards and no other id occurs; every front-sprite index lies inside the sprite array |
| Game.GameManager.constructor | Assets/Scripts/GameManager.cs:10-14 | a new manager has an empty buffer, no cards and no pending hides, and satisfies the engine invariant |
| Game.GameManager.GenerateGrid | Assets/Scripts/GameManager.cs:24-66 | appends to the grid, and returns, fresh, distinct, face-down, unmatched cards, each in its own cell in row-major order, carrying the shuffled deck with sprite `id % spriteCount`; which exception stops it, if any, follows from the configuration; buffer and hides are unchanged and the invariant is kept |
| Game.GameManager.FillGrid | Assets/Scripts/GameManager.cs:46-65 | the nested y/x loops create one fresh face-down card per cell, card k in the cell with running index k and carrying deck entry k, and stop at the first exception |
| Game.GameManager.FillRow | Assets/Scripts/GameManager.cs:49-64 | the inner loop for row y creates one card per column x, placed in cell (y, x), from the running index on, and advances the index by the row width unless it throws |
| Game.GameManager.PlaceCard | Assets/Scripts/GameManager.cs:51-63 | one cell: a fresh face-down unmatched card is placed in cell (y, x) and gets `ids[index]` and sprite `id % spriteCount`; it throws argument-out-of-range past the end of the deck, and divide-by-zero with no sprites |
| Game.GameManager.Click | Assets/Scripts/Card.cs:22-28 | a rejected click changes nothing; an accepted click on an empty buffer buffers the card face up; an accepted click on a one-card buffer resolves the pair and empties the buffer; the invariant is kept |
| Game.GameManager.HandleCardFlipped | Assets/Scripts/GameManager.cs:68-76 | appends the card and resolves exactly when the buffer reaches two, so between events the buffer holds at most one card |
| Game.GameManager.CheckMatch | Assets/Scripts/GameManager.cs:78-94 | equal ids mark both cards matched and schedule nothing; different ids leave both unmatched and schedule one hide for exactly this pair; both stay face up; the buffer is cleared |
| Game.GameManager.FireFlipBack | Assets/Scripts/GameManager.cs:96-101 | resuming the oldest pending hide removes it and leaves both of its cards face down; buffer and grid are unchanged |
| Game.GameManager.FlipBackAfterDelay | Assets/Scripts/GameManager.cs:99-100 | each card that is unmatched at resume time turns face down; a matched one keeps its face; the invariant (every matched card is face up) is kept |
| Game.FlipKeepsInvariant | Assets/Scripts/Card.cs:24-26 | a card that a click turns face up was neither buffered nor awaiting a hide |
| Game.BufferKeepsInvariant | Assets/Scripts/GameManager.cs:70 | buffering that card keeps the buffer free of duplicates and accounted for |
| Game.MatchKeepsInvariant | Assets/Scripts/GameManager.cs:83-87 | marking both buffered cards matched keeps every matched card face up and every pending hide on unmatched cards |
| Game.MismatchKeepsInvariant | Assets/Scripts/GameManager.cs:88-93 | scheduling a hide for the two buffered cards names two distinct face-up unmatched cards that share no card with another hide |
| Game.TailKeepsInvariant | Assets/Scripts/GameManager.cs:96-98 | the resumed hide's cards are still face up, unmatched, unbuffered and in no other hide |
| Game.HideKeepsInvariant | Assets/Scripts/GameManager.cs:99-100 | turning the unmatched ones among those cards face down restores the invariant |
| Scenarios.DealOnePair | Assets/Scripts/GameManager.cs:24-66 | a 1-by-2 grid deals two distinct face-down cards, both of id 0, into a valid game with nothing pending |
| Scenarios.PlayMatchingPair | Assets/Scripts/GameManager.cs:68-94 | clicking both cards of that pair leaves both matched and face up, with nothing buffered or scheduled |
| Scenarios.ShuffledPrefixInPlace | Assets/Scripts/GameManager.cs:36-40 | draws that swap each entry with itself leave the list unchanged |
| Scenarios.DealInPlace | Assets/Scripts/GameManager.cs:27-40 | with those draws a 2-by-2 grid is dealt the ids 0, 0, 1, 1 |
| Scenarios.DealTwoPairs | Assets/Scripts/GameManager.cs:24-66 | so its cards 0 and 2 are distinct, face down and carry ids 0 and 1, in a valid game with nothing pending |
| Scenarios.PlayMismatch | Assets/Scripts/GameManager.cs:78-101 | clicking cards 0 and 2 schedules one hide, a click on card 0 is then rejected, and resuming the hide leaves both face down and unmatched with nothing pending |

## Left out

- `AudioManager` and `SaveLoadManager` are not part of this model. One is only audio side effects; the other is persistence through `PlayerPrefs` and `JsonUtility`, whose code is not available.
- Sprites and rendering are left out: the renderer's sprite, `backSprite`, the sprite objects themselves, and the score text of `UpdateUI`. A front sprite is represented by its index in the sprite array.
- Card positions are `float` arithmetic on the cell (y, x) and the spacing. The model keeps the cell (`gridY`, `gridX`) and leaves out the arithmetic.
- The Unity lifecycle (`Awake`, `Start`, `OnEnable`, `OnDisable`), `Instantiate` and `GetComponent` are left out. An instantiated card is a fresh `Card` whose prefab values are id 0, face down and unmatched.
- The static event's subscriber list is not modelled. The only subscriber is the manager, so an event is a direct call into `HandleCardFlipped`.
- Game.GameManager.FireFlipBack: real time is not modelled. A hide resumes when the environment calls this method. Every hide waits the same one second, so hides resume oldest first, and the model resumes them in that order.
- Game.GameManager.GenerateGrid: `rows * cols` is taken as an exact product. The C# 32-bit overflow for huge grids is not modelled.
- Game.GameManager.Click: only cards of the grid are clicked, because every card in the scene is one the manager instantiated.
- `IsFlipped`, `IsMatched` and `CurrentScore` are pure getters. Their functions carry no contract beyond their `reads` frame.
