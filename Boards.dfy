/** The 4 by 4 board as a value, and what each operation of the engine does
    to it: the four moves, spawning a tile and the game-over test. */
module Boards {
  import opened Lines

  /** The board, indexed by row then column; 0 is an empty cell. */
  type Grid = seq<seq<nat>>

  /** The directions of the four arrow keys. */
  datatype Direction = Left | Right | Up | Down

  predicate IsGrid(g: Grid)
  {
    |g| == Width && forall r :: 0 <= r < Width ==> |g[r]| == Width
  }

  /** The board before the first tile: every cell empty. */
  function EmptyGrid(): (g: Grid)
    ensures IsGrid(g)
  {
    seq(Width, _ => Zeros(Width))
  }

  /** A line read from its far end (list(reversed(...))). */
  function Reverse(s: seq<nat>): (r: seq<nat>)
    ensures |r| == |s|
  {
    seq(|s|, i requires 0 <= i < |s| => s[|s| - 1 - i])
  }

  /** Column c read top to bottom. */
  function Column(g: Grid, c: nat): (col: seq<nat>)
    requires IsGrid(g) && c < Width
    ensures |col| == Width
  {
    seq(Width, r requires 0 <= r < Width => g[r][c])
  }

  /** The line operation towards index 0 or, reversed, towards the far end. */
  function Toward(line: seq<nat>, reversed: bool): (r: seq<nat>)
    ensures |line| <= Width ==> |r| == Width
  {
    if reversed then Reverse(Slide(Reverse(line))) else Slide(line)
  }

  /** The line operation on every row. */
  function SlideRows(g: Grid, reversed: bool): (h: Grid)
    requires IsGrid(g)
    ensures IsGrid(h)
  {
    seq(Width, r requires 0 <= r < Width => Toward(g[r], reversed))
  }

  /** The line operation on every column. */
  function SlideColumns(g: Grid, reversed: bool): (h: Grid)
    requires IsGrid(g)
    ensures IsGrid(h)
  {
    seq(Width, r requires 0 <= r < Width =>
      seq(Width, c requires 0 <= c < Width => Toward(Column(g, c), reversed)[r]))
  }

  /** The board after a move: left and right act on rows, up and down on
      columns, right and down on the reversed line. */
  function Move(g: Grid, d: Direction): (h: Grid)
    requires IsGrid(g)
    ensures IsGrid(h)
  {
    match d
    case Left => SlideRows(g, false)
    case Right => SlideRows(g, true)
    case Up => SlideColumns(g, false)
    case Down => SlideColumns(g, true)
  }

  /** The board with rows and columns exchanged. */
  function Transpose(g: Grid): (h: Grid)
    requires IsGrid(g)
    ensures IsGrid(h)
  {
    seq(Width, r requires 0 <= r < Width => Column(g, r))
  }

  /** The board seen in a mirror: every row reversed. */
  function Mirror(g: Grid): (h: Grid)
    requires IsGrid(g)
    ensures IsGrid(h)
  {
    seq(Width, r requires 0 <= r < Width => Reverse(g[r]))
  }

  /** Row-major order of cells. */
  predicate Before(p: (nat, nat), q: (nat, nat))
  {
    p.0 < q.0 || (p.0 == q.0 && p.1 < q.1)
  }

  /** The empty cells of row r from column c on, left to right. */
  function EmptyInRow(g: Grid, r: nat, c: nat): seq<(nat, nat)>
    requires IsGrid(g) && r < Width && c <= Width
    decreases Width - c
  {
    if c == Width then []
    else (if g[r][c] == 0 then [(r, c)] else []) + EmptyInRow(g, r, c + 1)
  }

  /** The empty cells of the rows from r on, in row-major order. */
  function EmptyInRows(g: Grid, r: nat): seq<(nat, nat)>
    requires IsGrid(g) && r <= Width
    decreases Width - r
  {
    if r == Width then [] else EmptyInRow(g, r, 0) + EmptyInRows(g, r + 1)
  }

  /** The list of empty cells add_tile chooses from: exactly the empty
      cells, each once, in row-major order. */
  function EmptyCells(g: Grid): (cells: seq<(nat, nat)>)
    requires IsGrid(g)
    ensures forall p :: p in cells <==> p.0 < Width && p.1 < Width && g[p.0][p.1] == 0
    ensures forall i, j :: 0 <= i < j < |cells| ==> Before(cells[i], cells[j])
  {
    EmptyInRowsExact(g, 0);
    EmptyInRowsOrdered(g, 0);
    EmptyInRows(g, 0)
  }

  lemma {:induction false} EmptyInRowExact(g: Grid, r: nat, c: nat)
    requires IsGrid(g) && r < Width && c <= Width
    decreases Width - c
    ensures forall p :: p in EmptyInRow(g, r, c) <==> p.0 == r && c <= p.1 < Width && g[r][p.1] == 0
  {
    if c < Width {
      EmptyInRowExact(g, r, c + 1);
    }
  }

  lemma {:induction false} EmptyInRowOrdered(g: Grid, r: nat, c: nat)
    requires IsGrid(g) && r < Width && c <= Width
    decreases Width - c
    ensures forall i, j :: 0 <= i < j < |EmptyInRow(g, r, c)| ==> Before(EmptyInRow(g, r, c)[i], EmptyInRow(g, r, c)[j])
  {
    if c < Width {
      EmptyInRowOrdered(g, r, c + 1);
      EmptyInRowExact(g, r, c + 1);
      var rest := EmptyInRow(g, r, c + 1);
      assert forall j :: 0 <= j < |rest| ==> rest[j] in rest;
    }
  }

  lemma {:induction false} EmptyInRowsExact(g: Grid, r: nat)
    requires IsGrid(g) && r <= Width
    decreases Width - r
    ensures forall p :: p in EmptyInRows(g, r) <==> r <= p.0 < Width && p.1 < Width && g[p.0][p.1] == 0
  {
    if r < Width {
      EmptyInRowExact(g, r, 0);
      EmptyInRowsExact(g, r + 1);
    }
  }

  lemma {:induction false} EmptyInRowsOrdered(g: Grid, r: nat)
    requires IsGrid(g) && r <= Width
    decreases Width - r
    ensures forall i, j :: 0 <= i < j < |EmptyInRows(g, r)| ==> Before(EmptyInRows(g, r)[i], EmptyInRows(g, r)[j])
  {
    if r < Width {
      var here, below := EmptyInRow(g, r, 0), EmptyInRows(g, r + 1);
      EmptyInRowOrdered(g, r, 0);
      EmptyInRowsOrdered(g, r + 1);
      EmptyInRowExact(g, r, 0);
      EmptyInRowsExact(g, r + 1);
      assert forall i :: 0 <= i < |here| ==> here[i] in here;
      assert forall j :: 0 <= j < |below| ==> below[j] in below;
    }
  }

  /** No cell is empty. */
  predicate Full(g: Grid)
    requires IsGrid(g)
  {
    forall r, c :: 0 <= r < Width && 0 <= c < Width ==> g[r][c] != 0
  }

  /** The value add_tile writes: 2, or 4 when the random draw says so. */
  function NewTile(four: bool): nat
  {
    if four then 4 else 2
  }

  /** add_tile with its random choices made by the caller: pick indexes the
      list of empty cells, four selects a 4 instead of a 2. On a board with
      an empty cell, exactly one empty cell receives the new tile and every
      other cell keeps its value; a full board is left as it is. */
  function Spawn(g: Grid, pick: nat, four: bool): (h: Grid)
    requires IsGrid(g)
    requires EmptyCells(g) != [] ==> pick < |EmptyCells(g)|
    ensures IsGrid(h)
    ensures Full(g) ==> h == g
    ensures !Full(g) ==>
              exists r, c :: 0 <= r < Width && 0 <= c < Width && g[r][c] == 0 && h[r][c] == NewTile(four) &&
                (forall r', c' :: 0 <= r' < Width && 0 <= c' < Width && (r' != r || c' != c) ==> h[r'][c'] == g[r'][c'])
  {
    var empty := EmptyCells(g);
    if empty == [] then
      g
    else
      var r, c := empty[pick].0, empty[pick].1;
      assert empty[pick] in empty;
      assert g[r][c] == 0;
      SetCellChangesOne(g, r, c, NewTile(four));
      SetCell(g, r, c, NewTile(four))
  }

  /** The board with cell (r, c) set to v. */
  function SetCell(g: Grid, r: nat, c: nat, v: nat): (h: Grid)
    requires IsGrid(g) && r < Width && c < Width
    ensures IsGrid(h)
  {
    var row: seq<nat> := g[r][c := v];
    g[r := row]
  }

  lemma SetCellChangesOne(g: Grid, r: nat, c: nat, v: nat)
    requires IsGrid(g) && r < Width && c < Width
    ensures var h := SetCell(g, r, c, v);
            h[r][c] == v &&
            forall r', c' :: 0 <= r' < Width && 0 <= c' < Width && (r' != r || c' != c) ==> h[r'][c'] == g[r'][c']
  {
  }

  /** No two neighbouring cells of a line hold the same value. */
  predicate NoEqualNeighbours(s: seq<nat>)
  {
    forall i :: 0 <= i < |s| - 1 ==> s[i] != s[i + 1]
  }

  /** game_over: every cell occupied and no two horizontally or vertically
      adjacent cells equal. */
  predicate IsOver(g: Grid)
    requires IsGrid(g)
  {
    && Full(g)
    && (forall r :: 0 <= r < Width ==> NoEqualNeighbours(g[r]))
    && (forall c :: 0 <= c < Width ==> NoEqualNeighbours(Column(g, c)))
  }

  /** What the scan of game_over checks at cell (r, c): the cell is
      occupied and differs from its right and lower neighbours. */
  predicate Settled(g: Grid, r: nat, c: nat)
    requires IsGrid(g) && r < Width && c < Width
  {
    && g[r][c] != 0
    && (c < Width - 1 ==> g[r][c] != g[r][c + 1])
    && (r < Width - 1 ==> g[r][c] != g[r + 1][c])
  }

  /** The cell-by-cell scan decides IsOver. */
  lemma OverIffAllSettled(g: Grid)
    requires IsGrid(g)
    ensures IsOver(g) <==> forall r, c :: 0 <= r < Width && 0 <= c < Width ==> Settled(g, r, c)
  {
    if forall r, c :: 0 <= r < Width && 0 <= c < Width ==> Settled(g, r, c) {
      forall r, c | 0 <= r < Width && 0 <= c < Width ensures g[r][c] != 0 {
        assert Settled(g, r, c);
      }
      forall c | 0 <= c < Width ensures NoEqualNeighbours(Column(g, c)) {
        forall i | 0 <= i < Width - 1 ensures Column(g, c)[i] != Column(g, c)[i + 1] {
          assert Settled(g, i, c);
        }
      }
      forall r | 0 <= r < Width ensures NoEqualNeighbours(g[r]) {
        forall i | 0 <= i < Width - 1 ensures g[r][i] != g[r][i + 1] {
          assert Settled(g, r, i);
        }
      }
    }
    if IsOver(g) {
      forall r, c | 0 <= r < Width && 0 <= c < Width ensures Settled(g, r, c) {
        assert NoEqualNeighbours(g[r]);
        if c < Width - 1 {
          assert g[r][c] != g[r][c + 1];
        }
        if r < Width - 1 {
          var col := Column(g, c);
          assert NoEqualNeighbours(col);
          assert col[r] != col[r + 1];
          assert col[r] == g[r][c] && col[r + 1] == g[r + 1][c];
        }
      }
    }
  }

  /** Total of all cells. */
  function Total(g: Grid): nat
    requires IsGrid(g)
  {
    Sum(g[0]) + Sum(g[1]) + Sum(g[2]) + Sum(g[3])
  }

  /** Number of occupied cells. */
  function Tiles(g: Grid): nat
    requires IsGrid(g)
  {
    Occupied(g[0]) + Occupied(g[1]) + Occupied(g[2]) + Occupied(g[3])
  }

  /** Every cell holds 0 or a power of two of at least 2. */
  predicate TileValues(g: Grid)
    requires IsGrid(g)
  {
    forall r :: 0 <= r < Width ==> AllTiles(g[r])
  }

  // ---------------------------------------------------------------------
  // Lines of a board
  // ---------------------------------------------------------------------

  lemma ReverseReverse(s: seq<nat>)
    ensures Reverse(Reverse(s)) == s
  {
  }

  lemma ReverseSum(s: seq<nat>)
    requires |s| == Width
    ensures Sum(Reverse(s)) == Sum(s)
    ensures Occupied(Reverse(s)) == Occupied(s)
  {
    SumOfFour(s);
    SumOfFour(Reverse(s));
    OccupiedOfFour(s);
    OccupiedOfFour(Reverse(s));
  }

  lemma TowardCounts(line: seq<nat>, reversed: bool)
    requires |line| == Width
    ensures Sum(Toward(line, reversed)) == Sum(line)
    ensures Occupied(Toward(line, reversed)) <= Occupied(line)
  {
    if reversed {
      var m := Reverse(line);
      ReverseSum(line);
      SlideSum(m);
      SlideOccupied(m);
      ReverseSum(Slide(m));
    } else {
      SlideSum(line);
      SlideOccupied(line);
    }
  }

  lemma TowardTiles(line: seq<nat>, reversed: bool)
    requires |line| == Width && AllTiles(line)
    ensures AllTiles(Toward(line, reversed))
  {
    if reversed {
      SlideTiles(Reverse(line));
    } else {
      SlideTiles(line);
    }
  }

  lemma TowardFixed(line: seq<nat>, reversed: bool)
    requires |line| == Width
    requires forall i :: 0 <= i < Width ==> line[i] != 0
    requires forall i :: 0 <= i < Width - 1 ==> line[i] != line[i + 1]
    ensures Toward(line, reversed) == line
  {
    if reversed {
      var m := Reverse(line);
      assert forall i :: 0 <= i < Width - 1 ==> m[i] != m[i + 1] by {
        forall i | 0 <= i < Width - 1 ensures m[i] != m[i + 1] {
          assert m[i] == line[Width - 1 - i] && m[i + 1] == line[Width - 2 - i];
        }
      }
      SlideFixed(m);
      ReverseReverse(line);
    } else {
      SlideFixed(line);
    }
  }

  lemma TowardChangedLeavesRoom(line: seq<nat>, reversed: bool)
    requires |line| == Width && Toward(line, reversed) != line
    ensures exists i :: 0 <= i < Width && Toward(line, reversed)[i] == 0
  {
    if reversed {
      var m := Reverse(line);
      ReverseReverse(line);
      SlideChangedLeavesRoom(m);
      var i :| 0 <= i < Width && Slide(m)[i] == 0;
      assert Toward(line, reversed)[Width - 1 - i] == 0;
    } else {
      SlideChangedLeavesRoom(line);
    }
  }

  /** Column c of the rows-first board after an up or down move. */
  lemma ColumnOfSlideColumns(g: Grid, reversed: bool, c: nat)
    requires IsGrid(g) && c < Width
    ensures Column(SlideColumns(g, reversed), c) == Toward(Column(g, c), reversed)
  {
  }

  /** The total of a board, column by column. */
  lemma TotalByColumns(g: Grid)
    requires IsGrid(g)
    ensures Total(g) == Sum(Column(g, 0)) + Sum(Column(g, 1)) + Sum(Column(g, 2)) + Sum(Column(g, 3))
  {
    SumOfFour(g[0]); SumOfFour(g[1]); SumOfFour(g[2]); SumOfFour(g[3]);
    SumOfFour(Column(g, 0)); SumOfFour(Column(g, 1)); SumOfFour(Column(g, 2)); SumOfFour(Column(g, 3));
  }

  /** The tile count of a board, column by column. */
  lemma TilesByColumns(g: Grid)
    requires IsGrid(g)
    ensures Tiles(g) == Occupied(Column(g, 0)) + Occupied(Column(g, 1)) + Occupied(Column(g, 2)) + Occupied(Column(g, 3))
  {
    OccupiedOfFour(g[0]); OccupiedOfFour(g[1]); OccupiedOfFour(g[2]); OccupiedOfFour(g[3]);
    OccupiedOfFour(Column(g, 0)); OccupiedOfFour(Column(g, 1));
    OccupiedOfFour(Column(g, 2)); OccupiedOfFour(Column(g, 3));
  }

  // ---------------------------------------------------------------------
  // Moves
  // ---------------------------------------------------------------------

  /** Every move keeps the total of the board. */
  lemma MoveKeepsTotal(g: Grid, d: Direction)
    requires IsGrid(g)
    ensures Total(Move(g, d)) == Total(g)
  {
    var h := Move(g, d);
    var rev := d == Right || d == Down;
    if d == Left || d == Right {
      forall r | 0 <= r < Width ensures Sum(h[r]) == Sum(g[r]) {
        TowardCounts(g[r], rev);
      }
    } else {
      TotalByColumns(g);
      TotalByColumns(h);
      forall c | 0 <= c < Width ensures Sum(Column(h, c)) == Sum(Column(g, c)) {
        ColumnOfSlideColumns(g, rev, c);
        TowardCounts(Column(g, c), rev);
      }
    }
  }

  /** No move adds an occupied cell. */
  lemma MoveKeepsOrLowersTiles(g: Grid, d: Direction)
    requires IsGrid(g)
    ensures Tiles(Move(g, d)) <= Tiles(g)
  {
    var h := Move(g, d);
    var rev := d == Right || d == Down;
    if d == Left || d == Right {
      forall r | 0 <= r < Width ensures Occupied(h[r]) <= Occupied(g[r]) {
        TowardCounts(g[r], rev);
      }
    } else {
      TilesByColumns(g);
      TilesByColumns(h);
      forall c | 0 <= c < Width ensures Occupied(Column(h, c)) <= Occupied(Column(g, c)) {
        ColumnOfSlideColumns(g, rev, c);
        TowardCounts(Column(g, c), rev);
      }
    }
  }

  /** Moves keep every cell a tile value. */
  lemma MoveKeepsTileValues(g: Grid, d: Direction)
    requires IsGrid(g) && TileValues(g)
    ensures TileValues(Move(g, d))
  {
    var h := Move(g, d);
    var rev := d == Right || d == Down;
    if d == Left || d == Right {
      forall r | 0 <= r < Width ensures AllTiles(h[r]) {
        TowardTiles(g[r], rev);
      }
    } else {
      forall c | 0 <= c < Width ensures AllTiles(Toward(Column(g, c), rev)) {
        TowardTiles(Column(g, c), rev);
      }
      forall r, c | 0 <= r < Width && 0 <= c < Width ensures IsTile(h[r][c]) {
        assert h[r][c] == Toward(Column(g, c), rev)[r];
      }
    }
  }

  /** Spawning keeps every cell a tile value. */
  lemma SpawnKeepsTileValues(g: Grid, pick: nat, four: bool)
    requires IsGrid(g) && TileValues(g)
    requires EmptyCells(g) != [] ==> pick < |EmptyCells(g)|
    ensures TileValues(Spawn(g, pick, four))
  {
    var h := Spawn(g, pick, four);
    if !Full(g) {
      assert IsTile(NewTile(four)) by {
        assert PowerOfTwo(2) by { assert PowerOfTwo(1); }
        assert PowerOfTwo(4) by { assert 4 / 2 == 2; }
      }
      var r0, c0 :| 0 <= r0 < Width && 0 <= c0 < Width && g[r0][c0] == 0 && h[r0][c0] == NewTile(four) &&
                    (forall r', c' :: 0 <= r' < Width && 0 <= c' < Width && (r' != r0 || c' != c0) ==> h[r'][c'] == g[r'][c']);
      forall r, c | 0 <= r < Width && 0 <= c < Width ensures IsTile(h[r][c]) {
        if r != r0 || c != c0 {
          assert h[r][c] == g[r][c];
        }
      }
    }
  }

  /** With exactly one empty cell, the spawn fills that very cell, so the
      board always changes. */
  lemma SpawnFillsOnlyEmptyCell(g: Grid, r0: nat, c0: nat, pick: nat, four: bool)
    requires IsGrid(g) && r0 < Width && c0 < Width && g[r0][c0] == 0
    requires forall r, c :: 0 <= r < Width && 0 <= c < Width && (r != r0 || c != c0) ==> g[r][c] != 0
    requires EmptyCells(g) != [] ==> pick < |EmptyCells(g)|
    ensures Spawn(g, pick, four)[r0][c0] == NewTile(four)
    ensures Spawn(g, pick, four) != g
  {
    assert !Full(g) by {
      assert g[r0][c0] == 0;
    }
    var h := Spawn(g, pick, four);
    var r, c :| 0 <= r < Width && 0 <= c < Width && g[r][c] == 0 && h[r][c] == NewTile(four) &&
                (forall r', c' :: 0 <= r' < Width && 0 <= c' < Width && (r' != r || c' != c) ==> h[r'][c'] == g[r'][c']);
    assert r == r0 && c == c0;
  }

  /** On a finished board no move changes anything. */
  lemma OverBoardDoesNotMove(g: Grid, d: Direction)
    requires IsGrid(g) && IsOver(g)
    ensures Move(g, d) == g
  {
    var rev := d == Right || d == Down;
    if d == Left || d == Right {
      forall r | 0 <= r < Width ensures Toward(g[r], rev) == g[r] {
        TowardFixed(g[r], rev);
      }
    } else {
      forall c | 0 <= c < Width ensures Toward(Column(g, c), rev) == Column(g, c) {
        var col := Column(g, c);
        assert forall i :: 0 <= i < Width - 1 ==> col[i] != col[i + 1] by {
          forall i | 0 <= i < Width - 1 ensures col[i] != col[i + 1] {
            assert col[i] == g[i][c] && col[i + 1] == g[i + 1][c];
          }
        }
        TowardFixed(col, rev);
      }
      var h := Move(g, d);
      forall r | 0 <= r < Width ensures h[r] == g[r] {
        forall c | 0 <= c < Width ensures h[r][c] == g[r][c] {
          assert h[r][c] == Toward(Column(g, c), rev)[r];
        }
      }
    }
  }

  /** A move that changes the board leaves a cell empty, so the spawn that
      follows always places a tile. */
  lemma ChangingMoveLeavesRoom(g: Grid, d: Direction)
    requires IsGrid(g) && Move(g, d) != g
    ensures !Full(Move(g, d))
  {
    var h := Move(g, d);
    var rev := d == Right || d == Down;
    if d == Left || d == Right {
      var r :| 0 <= r < Width && h[r] != g[r];
      TowardChangedLeavesRoom(g[r], rev);
      var i :| 0 <= i < Width && Toward(g[r], rev)[i] == 0;
      assert h[r][i] == 0;
    } else {
      var r :| 0 <= r < Width && h[r] != g[r];
      var c :| 0 <= c < Width && h[r][c] != g[r][c];
      assert Toward(Column(g, c), rev)[r] != Column(g, c)[r];
      TowardChangedLeavesRoom(Column(g, c), rev);
      var i :| 0 <= i < Width && Toward(Column(g, c), rev)[i] == 0;
      assert h[i][c] == 0;
    }
  }

  /** Right is left on the mirrored board, mirrored back. */
  lemma RightMirrorsLeft(g: Grid)
    requires IsGrid(g)
    ensures Move(g, Right) == Mirror(Move(Mirror(g), Left))
  {
  }

  /** Up is left on the transposed board, transposed back. */
  lemma UpTransposesLeft(g: Grid)
    requires IsGrid(g)
    ensures Move(g, Up) == Transpose(Move(Transpose(g), Left))
  {
    var h, k := Move(g, Up), Transpose(Move(Transpose(g), Left));
    forall r | 0 <= r < Width ensures h[r] == k[r] {
      forall c | 0 <= c < Width ensures h[r][c] == k[r][c] {
        assert Transpose(g)[c] == Column(g, c);
      }
    }
  }

  /** Down is right on the transposed board, transposed back. */
  lemma DownTransposesRight(g: Grid)
    requires IsGrid(g)
    ensures Move(g, Down) == Transpose(Move(Transpose(g), Right))
  {
    var h, k := Move(g, Down), Transpose(Move(Transpose(g), Right));
    forall r | 0 <= r < Width ensures h[r] == k[r] {
      forall c | 0 <= c < Width ensures h[r][c] == k[r][c] {
        assert Transpose(g)[c] == Column(g, c);
      }
    }
  }

  /** Each line's result depends only on that line: two boards that agree
      on row (for left and right) or column (for up and down) i agree on it
      after the move. */
  lemma MoveIsPerLine(g: Grid, h: Grid, d: Direction, i: nat)
    requires IsGrid(g) && IsGrid(h) && i < Width
    requires (d == Left || d == Right) ==> g[i] == h[i]
    requires (d == Up || d == Down) ==> Column(g, i) == Column(h, i)
    ensures (d == Left || d == Right) ==> Move(g, d)[i] == Move(h, d)[i]
    ensures (d == Up || d == Down) ==> Column(Move(g, d), i) == Column(Move(h, d), i)
  {
    if d == Up || d == Down {
      ColumnOfSlideColumns(g, d == Down, i);
      ColumnOfSlideColumns(h, d == Down, i);
    }
  }

  /** Two boards differ exactly when some cell differs. */
  lemma GridsDiffer(g: Grid, h: Grid)
    requires IsGrid(g) && IsGrid(h)
    ensures g != h <==> exists r, c :: 0 <= r < Width && 0 <= c < Width && g[r][c] != h[r][c]
  {
    if g != h {
      var r :| 0 <= r < Width && g[r] != h[r];
      var c :| 0 <= c < Width && g[r][c] != h[r][c];
    }
  }
}
