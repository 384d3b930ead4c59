/** Concrete boards and lines: the documented behaviour of the moves on
    small examples, and the two places where a plausible general claim
    about the engine fails. */
module Examples {
  import opened Lines
  import opened Boards

  /** Merging is a single pass: four equal tiles give two doubled tiles. */
  lemma FourEqualTilesMergeInPairs()
    ensures Slide([2, 2, 2, 2]) == [4, 4, 0, 0]
  {
    SlideCombines([2, 2, 2, 2]);
    assert NonZeros([2, 2, 2, 2]) == [2, 2, 2, 2];
  }

  /** A pair at the far end slides to the front and merges. */
  lemma PairSlidesAndMerges()
    ensures Slide([0, 0, 2, 2]) == [4, 0, 0, 0]
  {
    SlideCombines([0, 0, 2, 2]);
    assert NonZeros([0, 0, 2, 2]) == [2, 2];
  }

  /** Moving right: [2, 0, 0, 2] becomes [0, 0, 0, 4]. */
  lemma RowMovedRight()
    ensures Toward([2, 0, 0, 2], true) == [0, 0, 0, 4]
  {
    assert Reverse([2, 0, 0, 2]) == [2, 0, 0, 2];
    SlideCombines([2, 0, 0, 2]);
    assert NonZeros([2, 0, 0, 2]) == [2, 2];
    assert Reverse([4, 0, 0, 0]) == [0, 0, 0, 4];
  }

  /** A board whose first column is [2, 2, 0, 0] from top to bottom. */
  function ColumnBoard(): (g: Grid)
    ensures IsGrid(g)
  {
    [[2, 0, 0, 0], [2, 0, 0, 0], [0, 0, 0, 0], [0, 0, 0, 0]]
  }

  /** The top pair of a column, seen as a line, moved to the front. */
  lemma TopPairToFront()
    ensures Toward([2, 2, 0, 0], false) == [4, 0, 0, 0]
  {
    SlideCombines([2, 2, 0, 0]);
    assert NonZeros([2, 2, 0, 0]) == [2, 2];
  }

  /** The top pair of a column, seen as a line, moved to the back. */
  lemma TopPairToBack()
    ensures Toward([2, 2, 0, 0], true) == [0, 0, 0, 4]
  {
    assert Reverse([2, 2, 0, 0]) == [0, 0, 2, 2];
    PairSlidesAndMerges();
    assert Reverse([4, 0, 0, 0]) == [0, 0, 0, 4];
  }

  /** Up gives the column [4, 0, 0, 0]. */
  lemma ColumnMovedUp()
    ensures Column(Move(ColumnBoard(), Up), 0) == [4, 0, 0, 0]
  {
    var g := ColumnBoard();
    assert Column(g, 0) == [2, 2, 0, 0];
    ColumnOfSlideColumns(g, false, 0);
    TopPairToFront();
  }

  /** Down gives the column [0, 0, 0, 4]. */
  lemma ColumnMovedDown()
    ensures Column(Move(ColumnBoard(), Down), 0) == [0, 0, 0, 4]
  {
    var g := ColumnBoard();
    assert Column(g, 0) == [2, 2, 0, 0];
    ColumnOfSlideColumns(g, true, 0);
    TopPairToBack();
  }

  /** A second identical move need not be a no-op: [2, 2, 4, 0] moved left
      gives [4, 4, 0, 0], and moved left again gives [8, 0, 0, 0]. */
  lemma SecondMoveCanStillChange()
    ensures Slide([2, 2, 4, 0]) == [4, 4, 0, 0]
    ensures Slide([4, 4, 0, 0]) == [8, 0, 0, 0]
  {
    SlideCombines([2, 2, 4, 0]);
    assert NonZeros([2, 2, 4, 0]) == [2, 2, 4];
    assert [2, 2, 4][2..] == [4];
    SlideCombines([4, 4, 0, 0]);
    assert NonZeros([4, 4, 0, 0]) == [4, 4];
  }

  lemma EmptyLineStays(reversed: bool)
    ensures Toward(Zeros(Width), reversed) == Zeros(Width)
  {
    SlideCombines(Zeros(Width));
    NonZerosOfZeros(Width);
    assert Reverse(Zeros(Width)) == Zeros(Width);
  }

  /** On the empty board no move changes anything, yet the game is not
      over: the game-over test is not "no move changes the board". */
  lemma EmptyBoardIsStuckButNotOver(d: Direction)
    ensures Move(EmptyGrid(), d) == EmptyGrid()
    ensures !IsOver(EmptyGrid())
  {
    var g := EmptyGrid();
    var rev := d == Right || d == Down;
    assert g[0][0] == 0;
    EmptyLineStays(rev);
    var h := Move(g, d);
    if d == Up || d == Down {
      forall r | 0 <= r < Width ensures h[r] == g[r] {
        forall c | 0 <= c < Width ensures h[r][c] == g[r][c] {
          assert Column(g, c) == Zeros(Width);
          assert h[r][c] == Toward(Column(g, c), rev)[r];
        }
      }
    }
  }

  /** A checkerboard of 2 and 4 is over. */
  lemma CheckerboardIsOver()
    ensures IsOver([[2, 4, 2, 4], [4, 2, 4, 2], [2, 4, 2, 4], [4, 2, 4, 2]])
  {
    var g: Grid := [[2, 4, 2, 4], [4, 2, 4, 2], [2, 4, 2, 4], [4, 2, 4, 2]];
    forall r, c | 0 <= r < Width && 0 <= c < Width ensures Settled(g, r, c) {
    }
    OverIffAllSettled(g);
  }
}
