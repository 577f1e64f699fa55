/**
 * The id deck that GameManager.GenerateGrid builds before it instantiates any
 * card: for a requested total of `rows * cols` cards it lists the ids
 * 0, 0, 1, 1, ..., p-1, p-1 where p is half the total, and then shuffles that
 * list in place with Fisher-Yates swaps. The random source is injected as the
 * sequence `draws`: draw i is the partner index that Random.Range(i, n)
 * returned, so i <= draws[i] < n.
 */
module Deck {

  /**
   * How many pairs the id loop adds for a requested total: the C# loop
   * `for (i = 0; i < total / 2; i++)` runs half the total, rounded down, when
   * the total is positive, and not at all otherwise (C# division truncates,
   * but any non-positive bound stops the loop at once).
   */
  function PairCount(total: int): (p: nat)
    ensures total <= 0 ==> p == 0
    ensures total > 0 ==> 2 * p <= total <= 2 * p + 1
  {
    if total <= 0 then 0 else total / 2
  }

  /** Reference definition of the unshuffled id list: entry k holds id k / 2. */
  function Pairs(p: nat): seq<int>
  {
    seq(2 * p, k => k / 2)
  }

  lemma PairsStep(p: nat)
    ensures Pairs(p + 1) == Pairs(p) + [p, p]
  {
  }

  /** Before the shuffle the list has 2p entries and holds each id in [0, p) exactly twice. */
  lemma {:induction false} PairsHoldEachIdTwice(p: nat)
    ensures |Pairs(p)| == 2 * p
    ensures forall v :: multiset(Pairs(p))[v] == if 0 <= v < p then 2 else 0
  {
    if p > 0 {
      PairsHoldEachIdTwice(p - 1);
      PairsStep(p - 1);
      assert multiset(Pairs(p)) == multiset(Pairs(p - 1)) + multiset{p - 1, p - 1};
    }
  }

  /** The id-pairing loop of GenerateGrid: `ids.Add(i); ids.Add(i);` for each i < p. */
  method PairedIds(p: nat) returns (ids: seq<int>)
    ensures ids == Pairs(p)
    ensures forall v :: multiset(ids)[v] == if 0 <= v < p then 2 else 0
  {
    ids := [];
    for i := 0 to p
      invariant ids == Pairs(i)
    {
      PairsStep(i);
      ids := ids + [i];
      ids := ids + [i];
    }
    PairsHoldEachIdTwice(p);
  }

  /** The random source for a list of n entries: draw i lies in [i, n). */
  predicate ValidDraws(draws: seq<int>, n: nat)
  {
    |draws| == n && forall i :: 0 <= i < n ==> i <= draws[i] < n
  }

  /**
   * The tuple swap `(ids[i], ids[j]) = (ids[j], ids[i])`: both right-hand
   * values are read first, then `ids[i]` and `ids[j]` are assigned in that
   * order. It only exchanges two entries, so it keeps the multiset of the list.
   */
  function Swap(s: seq<int>, i: nat, j: nat): (t: seq<int>)
    requires i < |s| && j < |s|
    ensures |t| == |s|
    ensures multiset(t) == multiset(s)
    ensures t[i] == s[j] && t[j] == s[i]
    ensures forall k :: 0 <= k < |s| && k != i && k != j ==> t[k] == s[k]
  {
    s[i := s[j]][j := s[i]]
  }

  /**
   * Reference definition of the shuffle: the list after the swaps for
   * positions 0, 1, ..., n-1 in turn.
   */
  function ShuffledPrefix(s: seq<int>, draws: seq<int>, n: nat): (r: seq<int>)
    requires n <= |s| && ValidDraws(draws, |s|)
    ensures |r| == |s|
  {
    if n == 0 then s else Swap(ShuffledPrefix(s, draws, n - 1), n - 1, draws[n - 1])
  }

  /** The list after the whole Fisher-Yates loop. */
  function Shuffled(s: seq<int>, draws: seq<int>): seq<int>
    requires ValidDraws(draws, |s|)
  {
    ShuffledPrefix(s, draws, |s|)
  }

  /** The shuffle only swaps entries, so its result is a permutation of its input. */
  lemma {:induction false} ShuffledPrefixPermutes(s: seq<int>, draws: seq<int>, n: nat)
    requires n <= |s| && ValidDraws(draws, |s|)
    ensures multiset(ShuffledPrefix(s, draws, n)) == multiset(s)
  {
    if n > 0 {
      ShuffledPrefixPermutes(s, draws, n - 1);
    }
  }

  /** The in-place Fisher-Yates loop of GenerateGrid. */
  method Shuffle(ids: seq<int>, draws: seq<int>) returns (out: seq<int>)
    requires ValidDraws(draws, |ids|)
    ensures out == Shuffled(ids, draws)
    ensures |out| == |ids|
  {
    out := ids;
    for i := 0 to |ids|
      invariant out == ShuffledPrefix(ids, draws, i)
    {
      var rand := draws[i];
      out := Swap(out, i, rand);
    }
  }

  /** The shuffled deck GenerateGrid deals for a requested total. */
  function Deal(total: int, draws: seq<int>): seq<int>
    requires ValidDraws(draws, 2 * PairCount(total))
  {
    Shuffled(Pairs(PairCount(total)), draws)
  }

  /**
   * Every id of the dealt deck occurs exactly twice, whatever the draws:
   * the deck has 2p entries, each in [0, p), each value in [0, p) twice.
   */
  lemma DealHoldsEachIdTwice(total: int, draws: seq<int>)
    requires ValidDraws(draws, 2 * PairCount(total))
    ensures |Deal(total, draws)| == 2 * PairCount(total)
    ensures forall v :: multiset(Deal(total, draws))[v] == if 0 <= v < PairCount(total) then 2 else 0
    ensures forall k :: 0 <= k < |Deal(total, draws)| ==> 0 <= Deal(total, draws)[k] < PairCount(total)
  {
    var p := PairCount(total);
    PairsHoldEachIdTwice(p);
    ShuffledPrefixPermutes(Pairs(p), draws, 2 * p);
    var d := Deal(total, draws);
    forall k | 0 <= k < |d|
      ensures 0 <= d[k] < p
    {
      assert d[k] in multiset(d);
    }
  }

  /**
   * The deck entry the cell (y, x) of a grid `cols` wide reads: the running
   * index of the nested y/x loops, which starts at 0 and counts every cell.
   */
  function CellIndex(cols: int, y: int, x: int): int
  {
    y * cols + x
  }

  /** Every cell (y, x) of a rows-by-cols grid reads an entry below rows * cols. */
  lemma RowMajorCell(rows: nat, cols: nat, y: nat, x: nat)
    requires y < rows && x < cols
    ensures 0 <= CellIndex(cols, y, x) < rows * cols
  {
    assert y * cols + x < y * cols + cols == (y + 1) * cols;
    MulMonotone(y + 1, rows, cols);
  }

  /** Row y of a rows-by-cols grid ends at entry (y + 1) * cols, at most rows * cols. */
  lemma RowEnd(rows: nat, cols: nat, y: nat)
    requires y < rows
    ensures y * cols + cols == (y + 1) * cols <= rows * cols
  {
    MulMonotone(y + 1, rows, cols);
  }

  /** Two different cells read different entries. */
  lemma RowMajorInjective(cols: nat, y1: nat, x1: nat, y2: nat, x2: nat)
    requires x1 < cols && x2 < cols
    requires CellIndex(cols, y1, x1) == CellIndex(cols, y2, x2)
    ensures y1 == y2 && x1 == x2
  {
    if y1 < y2 {
      MulMonotone(y1 + 1, y2, cols);
      assert false;
    } else if y2 < y1 {
      MulMonotone(y2 + 1, y1, cols);
      assert false;
    }
  }

  lemma MulMonotone(a: nat, b: nat, c: nat)
    requires a <= b
    ensures a * c <= b * c
  {
    assert b * c == a * c + (b - a) * c;
  }

  /** Every entry below rows * cols is read by the cell (k / cols, k % cols). */
  lemma RowMajorCovers(rows: nat, cols: nat, k: nat)
    requires k < rows * cols
    ensures k / cols < rows && k % cols < cols
    ensures CellIndex(cols, k / cols, k % cols) == k
  {
    assert cols > 0;
    if k / cols >= rows {
      MulMonotone(rows, k / cols, cols);
      assert false;
    }
  }
}
