/** The engine as the program runs it: one board, changed in place by the
    four moves and by spawning, read by the game-over scan. */
module Engine {
  import opened Lines
  import opened Boards

  class Game {
    /** The program's global grid. */
    var grid: Grid

    ghost predicate Valid()
      reads this
    {
      IsGrid(grid)
    }

    /** The grid before the first tile: every cell empty. */
    constructor ()
      ensures Valid() && grid == EmptyGrid()
    {
      grid := EmptyGrid();
    }

    /** add_tile, with the caller's random choices: pick indexes the list of
        empty cells, four asks for a 4 instead of a 2. */
    method AddTile(pick: nat, four: bool)
      requires Valid()
      requires EmptyCells(grid) != [] ==> pick < |EmptyCells(grid)|
      modifies this
      ensures Valid() && grid == Spawn(old(grid), pick, four)
    {
      var empty := EmptyCells(grid);
      if empty != [] {
        var (r, c) := empty[pick];
        assert empty[pick] in empty;
        var row: seq<nat> := grid[r][c := NewTile(four)];
        grid := grid[r := row];
      }
    }

    /** move_left: every row through the line operation; moved tells
        whether any row changed. */
    method MoveLeft() returns (moved: bool)
      requires Valid()
      modifies this
      ensures Valid() && grid == Move(old(grid), Left)
      ensures moved <==> grid != old(grid)
    {
      moved := false;
      for i := 0 to Width
        invariant IsGrid(grid)
        invariant forall k :: 0 <= k < i ==> grid[k] == Slide(old(grid)[k])
        invariant forall k :: i <= k < Width ==> grid[k] == old(grid)[k]
        invariant moved <==> exists k :: 0 <= k < i && grid[k] != old(grid)[k]
      {
        var newRow := Pipeline(grid[i]);
        if grid[i] != newRow {
          moved := true;
          grid := grid[i := newRow];
        }
      }
      RowsDone(old(grid), grid, false);
    }

    /** move_right: every row reversed, through the line operation, and
        reversed back. */
    method MoveRight() returns (moved: bool)
      requires Valid()
      modifies this
      ensures Valid() && grid == Move(old(grid), Right)
      ensures moved <==> grid != old(grid)
    {
      moved := false;
      for i := 0 to Width
        invariant IsGrid(grid)
        invariant forall k :: 0 <= k < i ==> grid[k] == Reverse(Slide(Reverse(old(grid)[k])))
        invariant forall k :: i <= k < Width ==> grid[k] == old(grid)[k]
        invariant moved <==> exists k :: 0 <= k < i && grid[k] != old(grid)[k]
      {
        var row := Reverse(grid[i]);
        var merged := Pipeline(row);
        var newRow := Reverse(merged);
        if grid[i] != newRow {
          moved := true;
          grid := grid[i := newRow];
        }
      }
      RowsDone(old(grid), grid, true);
    }

    /** move_up: every column, read top to bottom, through the line
        operation, written back cell by cell. */
    method MoveUp() returns (moved: bool)
      requires Valid()
      modifies this
      ensures Valid() && grid == Move(old(grid), Up)
      ensures moved <==> grid != old(grid)
    {
      moved := false;
      ghost var target := Move(grid, Up);
      for c := 0 to Width
        invariant IsGrid(grid)
        invariant forall r, k :: 0 <= r < Width && 0 <= k < Width ==>
                    grid[r][k] == if k < c then target[r][k] else old(grid)[r][k]
        invariant moved <==> exists r, k :: 0 <= r < Width && 0 <= k < c && grid[r][k] != old(grid)[r][k]
      {
        var col := Column(grid, c);
        assert col == Column(old(grid), c);
        var newCol := Pipeline(col);
        moved := WriteColumn(c, newCol, target, moved);
      }
      ColumnsDone(old(grid), grid, target);
    }

    /** move_down: every column reversed, through the line operation,
        reversed back and written cell by cell. */
    method MoveDown() returns (moved: bool)
      requires Valid()
      modifies this
      ensures Valid() && grid == Move(old(grid), Down)
      ensures moved <==> grid != old(grid)
    {
      moved := false;
      ghost var target := Move(grid, Down);
      for c := 0 to Width
        invariant IsGrid(grid)
        invariant forall r, k :: 0 <= r < Width && 0 <= k < Width ==>
                    grid[r][k] == if k < c then target[r][k] else old(grid)[r][k]
        invariant moved <==> exists r, k :: 0 <= r < Width && 0 <= k < c && grid[r][k] != old(grid)[r][k]
      {
        var col := Column(grid, c);
        assert col == Column(old(grid), c);
        col := Reverse(col);
        var merged := Pipeline(col);
        var newCol := Reverse(merged);
        moved := WriteColumn(c, newCol, target, moved);
      }
      ColumnsDone(old(grid), grid, target);
    }

    /** The inner loop of move_up and move_down: writes column c cell by
        cell, raising moved at every cell that changes. */
    method WriteColumn(c: nat, newCol: seq<nat>, ghost target: Grid, movedBefore: bool) returns (moved: bool)
      requires Valid() && c < Width && |newCol| == Width && IsGrid(target)
      requires forall r :: 0 <= r < Width ==> target[r][c] == newCol[r]
      modifies this
      ensures Valid()
      ensures forall r, k :: 0 <= r < Width && 0 <= k < Width ==>
                grid[r][k] == if k == c then newCol[r] else old(grid)[r][k]
      ensures moved <==> movedBefore || exists r :: 0 <= r < Width && old(grid)[r][c] != newCol[r]
    {
      moved := movedBefore;
      for r := 0 to Width
        invariant IsGrid(grid)
        invariant forall i, k :: 0 <= i < Width && 0 <= k < Width ==>
                    grid[i][k] == if k == c && i < r then newCol[i] else old(grid)[i][k]
        invariant moved <==> movedBefore || exists i :: 0 <= i < r && old(grid)[i][c] != newCol[i]
      {
        if grid[r][c] != newCol[r] {
          moved := true;
          SetCellChangesOne(grid, r, c, newCol[r]);
          grid := SetCell(grid, r, c, newCol[r]);
        }
      }
    }

    /** game_over: the cell-by-cell scan with its early returns. */
    method GameOver() returns (over: bool)
      requires Valid()
      ensures over <==> IsOver(grid)
    {
      OverIffAllSettled(grid);
      for r := 0 to Width
        invariant forall i, j :: 0 <= i < r && 0 <= j < Width ==> Settled(grid, i, j)
      {
        for c := 0 to Width
          invariant forall i, j :: 0 <= i < Width && 0 <= j < Width && (i < r || (i == r && j < c)) ==> Settled(grid, i, j)
        {
          if grid[r][c] == 0 {
            assert !Settled(grid, r, c);
            return false;
          }
          if c < Width - 1 && grid[r][c] == grid[r][c + 1] {
            assert !Settled(grid, r, c);
            return false;
          }
          if r < Width - 1 && grid[r][c] == grid[r + 1][c] {
            assert !Settled(grid, r, c);
            return false;
          }
        }
      }
      return true;
    }

    /** One key press of the event loop: the move, then, if it changed the
        grid, a spawn and the game-over test that ends the game. */
    method Turn(d: Direction, pick: nat, four: bool) returns (moved: bool, over: bool)
      requires Valid()
      requires EmptyCells(Move(grid, d)) != [] ==> pick < |EmptyCells(Move(grid, d))|
      modifies this
      ensures Valid()
      ensures moved <==> Move(old(grid), d) != old(grid)
      ensures grid == if moved then Spawn(Move(old(grid), d), pick, four) else old(grid)
      ensures over <==> moved && IsOver(grid)
    {
      match d {
        case Left => moved := MoveLeft();
        case Right => moved := MoveRight();
        case Up => moved := MoveUp();
        case Down => moved := MoveDown();
      }
      over := false;
      if moved {
        AddTile(pick, four);
        over := GameOver();
      }
    }
  }

  /** After the row loop of move_left or move_right, the grid is the move. */
  lemma RowsDone(g: Grid, h: Grid, reversed: bool)
    requires IsGrid(g) && IsGrid(h)
    requires forall k :: 0 <= k < Width ==> h[k] == Toward(g[k], reversed)
    ensures h == SlideRows(g, reversed)
    ensures h != g <==> exists k :: 0 <= k < Width && h[k] != g[k]
  {
  }

  /** After the column loop of move_up or move_down, the grid is the move. */
  lemma ColumnsDone(g: Grid, h: Grid, target: Grid)
    requires IsGrid(g) && IsGrid(h) && IsGrid(target)
    requires forall r, k :: 0 <= r < Width && 0 <= k < Width ==> h[r][k] == target[r][k]
    ensures h == target
    ensures h != g <==> exists r, k :: 0 <= r < Width && 0 <= k < Width && h[r][k] != g[r][k]
  {
    forall r | 0 <= r < Width ensures h[r] == target[r] {
    }
    GridsDiffer(h, g);
  }
}
