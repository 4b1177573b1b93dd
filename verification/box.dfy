/**
 * The game pieces of the box: the 15 x 15 board and the bag of letter tiles
 * (game/scrabble_box.py).
 */
module ScrabbleBox {

  /** Rows and columns of the board. */
  const BoardSize := 15

  /** The character of a cell that holds no tile. */
  const EmptyCell := '_'

  /** Tiles cannot be exchanged while the bag holds this many tiles or fewer. */
  const MinBagForExchange := 7

  function Min(a: int, b: int): int { if a <= b then a else b }

  function Max(a: int, b: int): int { if a <= b then b else a }

  /** Where a Python slice `s[:stop]` of a sequence of length `len` ends: a
      negative stop counts from the end, and the result is clamped into
      [0, len]. */
  function SliceStop(stop: int, len: nat): (k: nat)
    ensures k <= len
  {
    if stop < 0 then Max(0, len + stop) else Min(stop, len)
  }

  /** Cell (r, c) lies on the line of `n` cells written from (x, y) in
      direction `dir`: 'D' advances the second index, 'R' the first, and any
      other direction writes nothing. */
  predicate OnLine(r: int, c: int, x: int, y: int, dir: char, n: int)
  {
    || (dir == 'D' && r == x && y <= c < y + n)
    || (dir == 'R' && c == y && x <= r < x + n)
  }

  /** The board: a grid indexed `cells[x, y]`, and the point value of each
      letter. */
  class Board {
    const cells: array2<char>
    const tileScores: map<char, int>

    ghost predicate Valid()
      reads this
    {
      cells.Length0 == BoardSize && cells.Length1 == BoardSize
    }

    /** A fresh board: 15 rows of 15 cells, every cell empty. */
    constructor (tileScores: map<char, int>)
      ensures Valid() && fresh(cells) && this.tileScores == tileScores
      ensures forall r, c :: 0 <= r < BoardSize && 0 <= c < BoardSize ==> cells[r, c] == EmptyCell
    {
      cells := new char[BoardSize, BoardSize]((r, c) => EmptyCell);
      this.tileScores := tileScores;
    }

    /** Writes `word` one letter per cell from (x, y): with 'D' into
        (x, y + i), with 'R' into (x + i, y). Cells already holding a letter
        are overwritten without any check; nothing else changes. */
    method PlaceWord(word: string, x: int, y: int, dir: char)
      requires Valid()
      requires dir == 'D' && word != [] ==> 0 <= x < BoardSize && 0 <= y && y + |word| <= BoardSize
      requires dir == 'R' && word != [] ==> 0 <= y < BoardSize && 0 <= x && x + |word| <= BoardSize
      modifies cells
      ensures forall r, c :: 0 <= r < BoardSize && 0 <= c < BoardSize && OnLine(r, c, x, y, dir, |word|) ==>
        cells[r, c] == word[if dir == 'D' then c - y else r - x]
      ensures forall r, c :: 0 <= r < BoardSize && 0 <= c < BoardSize && !OnLine(r, c, x, y, dir, |word|) ==>
        cells[r, c] == old(cells[r, c])
    {
      if dir == 'D' {
        for i := 0 to |word|
          invariant forall k :: 0 <= k < i ==> cells[x, y + k] == word[k]
          invariant forall r, c :: 0 <= r < BoardSize && 0 <= c < BoardSize && !OnLine(r, c, x, y, dir, i) ==>
            cells[r, c] == old(cells[r, c])
        {
          cells[x, y + i] := word[i];
        }
      }
      if dir == 'R' {
        for i := 0 to |word|
          invariant forall k :: 0 <= k < i ==> cells[x + k, y] == word[k]
          invariant forall r, c :: 0 <= r < BoardSize && 0 <= c < BoardSize && !OnLine(r, c, x, y, dir, i) ==>
            cells[r, c] == old(cells[r, c])
        {
          cells[x + i, y] := word[i];
        }
      }
    }
  }

  /** The bag of letter tiles still to be drawn. */
  class TileBag {
    var bag: seq<char>

    /** A bag holding `tiles`, one entry per tile. */
    constructor (tiles: seq<char>)
      ensures bag == tiles
    {
      bag := tiles;
    }

    /** Shuffles the bag into the order `shuffled` (any rearrangement of it)
        and takes `numTiles` tiles from its front, or every tile when fewer
        remain. A negative count is a Python slice bound counted from the
        end. */
    method Grab(numTiles: int, shuffled: seq<char>) returns (newTiles: seq<char>)
      requires multiset(shuffled) == multiset(bag)
      modifies this
      ensures newTiles + bag == shuffled
      ensures 0 <= numTiles ==> |newTiles| == Min(numTiles, |old(bag)|)
      ensures numTiles < 0 ==> |newTiles| == Max(0, |old(bag)| + numTiles)
      ensures multiset(newTiles) + multiset(bag) == multiset(old(bag))
      ensures old(bag) == [] ==> newTiles == [] && bag == []
    {
      bag := shuffled;
      var n := Min(numTiles, |bag|);
      var k := SliceStop(n, |bag|);
      newTiles, bag := bag[..k], bag[k..];
      assert newTiles + bag == shuffled;
    }

    /** Exchanges `discarded` for fresh tiles. With seven tiles or fewer in
        the bag the exchange is refused: the discarded tiles come back and
        the bag is untouched. Otherwise replacements are drawn from the bag
        as it was before the exchange, and only then are the discarded tiles
        appended to it. */
    method Switch(discarded: seq<char>, shuffled: seq<char>) returns (newTiles: seq<char>)
      requires |bag| > MinBagForExchange ==> multiset(shuffled) == multiset(bag)
      modifies this
      ensures |old(bag)| <= MinBagForExchange ==> newTiles == discarded && bag == old(bag)
      ensures |old(bag)| > MinBagForExchange ==>
        && |newTiles| == Min(|discarded|, |old(bag)|)
        && newTiles <= shuffled
        && bag == shuffled[|newTiles|..] + discarded
        && multiset(newTiles) <= multiset(old(bag))
        && multiset(newTiles) + multiset(bag) == multiset(old(bag)) + multiset(discarded)
    {
      if |bag| <= MinBagForExchange {
        return discarded;
      }
      newTiles := Grab(|discarded|, shuffled);
      bag := bag + discarded;
    }
  }
}
