/** One line of the board (a row, or a column read top to bottom) and the
    pipeline every move runs on it: compress, merge, compress again. */
module Lines {

  /** Number of cells on a line; the board is Width by Width. */
  const Width: nat := 4

  /** Total of the values on a line. */
  function Sum(s: seq<nat>): nat
  {
    if s == [] then 0 else s[0] + Sum(s[1..])
  }

  /** The occupied (non-zero) entries of a line, in their original order. */
  function NonZeros(s: seq<nat>): (r: seq<nat>)
    ensures |r| <= |s|
    ensures forall i :: 0 <= i < |r| ==> r[i] != 0
  {
    if s == [] then [] else (if s[0] == 0 then [] else [s[0]]) + NonZeros(s[1..])
  }

  /** Number of occupied cells on a line. */
  function Occupied(s: seq<nat>): nat
  {
    |NonZeros(s)|
  }

  /** A run of n empty cells. */
  function Zeros(n: nat): seq<nat>
  {
    seq(n, _ => 0)
  }

  /** No occupied cell comes after an empty one. */
  predicate Packed(s: seq<nat>)
  {
    forall i, j :: 0 <= i < j < |s| && s[i] == 0 ==> s[j] == 0
  }

  /** compress: the occupied entries moved to the front in their order, the
      line padded with zeros up to Width cells (a longer line keeps its length). */
  function Compress(row: seq<nat>): (r: seq<nat>)
    ensures |r| >= Width
    ensures |row| <= Width ==> |r| == Width
    ensures NonZeros(r) == NonZeros(row)
    ensures Packed(r)
  {
    var tiles := NonZeros(row);
    var pad := if |tiles| < Width then Width - |tiles| else 0;
    NonZerosAppend(tiles, Zeros(pad));
    NonZerosOfOccupied(tiles);
    NonZerosOfZeros(pad);
    tiles + Zeros(pad)
  }

  /** One step of merge, at the pair (i, i + 1): equal occupied neighbours
      become the doubled value followed by an empty cell. */
  function MergeAt(s: seq<nat>, i: nat): (r: seq<nat>)
    requires i + 1 < |s|
    ensures |r| == |s|
  {
    if s[i] == s[i + 1] && s[i] != 0 then s[i := 2 * s[i]][i + 1 := 0] else s
  }

  /** The line once merge has visited the pairs (0, 1) up to (k - 1, k),
      each on the line as the earlier steps left it. */
  function Scanned(s: seq<nat>, k: nat): (r: seq<nat>)
    requires |s| >= Width && k < Width
    ensures |r| == |s|
  {
    if k == 0 then s else MergeAt(Scanned(s, k - 1), k - 1)
  }

  /** The whole single pass of merge over the pairs (0, 1), (1, 2), (2, 3). */
  function MergePass(s: seq<nat>): (r: seq<nat>)
    requires |s| >= Width
    ensures |r| == |s|
  {
    Scanned(s, Width - 1)
  }

  /** Whether the pass merges the pair (i, i + 1). */
  predicate MergesAt(s: seq<nat>, i: nat)
    requires |s| >= Width && i < Width - 1
  {
    var t := Scanned(s, i);
    t[i] == t[i + 1] && t[i] != 0
  }

  /** Number of merges among the first k steps of the pass. */
  function MergeCount(s: seq<nat>, k: nat): nat
    requires |s| >= Width && k < Width
  {
    if k == 0 then 0 else MergeCount(s, k - 1) + (if MergesAt(s, k - 1) then 1 else 0)
  }

  /** merge, which rewrites its list in place. */
  method Merge(row: array<nat>)
    requires row.Length >= Width
    modifies row
    ensures row[..] == MergePass(old(row[..]))
  {
    ghost var start := row[..];
    for i := 0 to Width - 1
      invariant row[..] == Scanned(start, i)
    {
      if row[i] == row[i + 1] && row[i] != 0 {
        row[i] := row[i] * 2;
        row[i + 1] := 0;
      }
    }
  }

  /** The line operation of every move: compress, merge, compress. */
  function Slide(line: seq<nat>): seq<nat>
  {
    Compress(MergePass(Compress(line)))
  }

  /** The pipeline as the moves run it: the compressed line is copied into a
      fresh list that merge rewrites in place, then compressed again. */
  method Pipeline(line: seq<nat>) returns (r: seq<nat>)
    ensures r == Slide(line)
  {
    var cells := Compress(line);
    var row := new nat[|cells|](k requires 0 <= k < |cells| => cells[k]);
    assert row[..] == cells;
    Merge(row);
    r := Compress(row[..]);
  }

  /** Reference merge on the tiles of a line listed without gaps: equal
      neighbours pair up from the front and each tile joins at most one pair. */
  function Combine(tiles: seq<nat>): seq<nat>
    decreases |tiles|
  {
    if |tiles| < 2 then tiles
    else if tiles[0] == tiles[1] then [2 * tiles[0]] + Combine(tiles[2..])
    else [tiles[0]] + Combine(tiles[1..])
  }

  /** A tile value: 0 for an empty cell, otherwise 2^k for some k >= 1. */
  predicate IsTile(v: nat)
  {
    v == 0 || (v >= 2 && PowerOfTwo(v))
  }

  predicate PowerOfTwo(v: nat)
    decreases v
  {
    v == 1 || (v >= 2 && v % 2 == 0 && PowerOfTwo(v / 2))
  }

  predicate AllTiles(s: seq<nat>)
  {
    forall i :: 0 <= i < |s| ==> IsTile(s[i])
  }

  // ---------------------------------------------------------------------
  // Facts about NonZeros, Sum and Zeros
  // ---------------------------------------------------------------------

  lemma {:induction false} NonZerosAppend(a: seq<nat>, b: seq<nat>)
    ensures NonZeros(a + b) == NonZeros(a) + NonZeros(b)
  {
    if a == [] {
      assert a + b == b;
    } else {
      assert (a + b)[1..] == a[1..] + b;
      NonZerosAppend(a[1..], b);
    }
  }

  lemma {:induction false} NonZerosOfOccupied(s: seq<nat>)
    requires forall i :: 0 <= i < |s| ==> s[i] != 0
    ensures NonZeros(s) == s
  {
    if s != [] {
      NonZerosOfOccupied(s[1..]);
    }
  }

  lemma {:induction false} NonZerosOfZeros(n: nat)
    ensures NonZeros(Zeros(n)) == []
  {
    if n > 0 {
      assert Zeros(n)[1..] == Zeros(n - 1);
      NonZerosOfZeros(n - 1);
    }
  }

  /** On a packed line, from the first empty cell on nothing is occupied. */
  lemma {:induction false} NonZerosAfterGap(s: seq<nat>, i: nat)
    requires Packed(s) && i < |s| && s[i] == 0
    ensures NonZeros(s[i..]) == []
  {
    var n := |s| - i;
    assert s[i..] == Zeros(n);
    NonZerosOfZeros(n);
  }

  lemma {:induction false} OccupiedFull(s: seq<nat>)
    requires Occupied(s) == |s|
    ensures forall i :: 0 <= i < |s| ==> s[i] != 0
  {
    if s != [] {
      assert |NonZeros(s[1..])| <= |s| - 1;
      OccupiedFull(s[1..]);
      assert forall i :: 1 <= i < |s| ==> s[i] == s[1..][i - 1];
    }
  }

  lemma {:induction false} SumAppend(a: seq<nat>, b: seq<nat>)
    ensures Sum(a + b) == Sum(a) + Sum(b)
  {
    if a == [] {
      assert a + b == b;
    } else {
      assert (a + b)[1..] == a[1..] + b;
      SumAppend(a[1..], b);
    }
  }

  lemma {:induction false} SumNonZeros(s: seq<nat>)
    ensures Sum(NonZeros(s)) == Sum(s)
  {
    if s != [] {
      SumNonZeros(s[1..]);
      SumAppend(if s[0] == 0 then [] else [s[0]], NonZeros(s[1..]));
    }
  }

  lemma {:induction false} SumZeros(n: nat)
    ensures Sum(Zeros(n)) == 0
  {
    if n > 0 {
      assert Zeros(n)[1..] == Zeros(n - 1);
      SumZeros(n - 1);
    }
  }

  /** Sum of a line of Width cells, written out. */
  lemma SumOfFour(s: seq<nat>)
    requires |s| == Width
    ensures Sum(s) == s[0] + s[1] + s[2] + s[3]
  {
    assert s[1..][1..] == s[2..];
    assert s[2..][1..] == s[3..];
    assert s[3..][1..] == [];
    assert Sum(s[3..]) == s[3];
    assert Sum(s[2..]) == s[2] + s[3];
    assert Sum(s[1..]) == s[1] + s[2] + s[3];
  }

  /** Occupied cells of a line of Width cells, counted one by one. */
  lemma OccupiedOfFour(s: seq<nat>)
    requires |s| == Width
    ensures Occupied(s) == Ind(s[0]) + Ind(s[1]) + Ind(s[2]) + Ind(s[3])
  {
    assert s[1..][1..] == s[2..];
    assert s[2..][1..] == s[3..];
    assert s[3..][1..] == [];
    assert |NonZeros(s[3..])| == Ind(s[3]);
    assert |NonZeros(s[2..])| == Ind(s[2]) + Ind(s[3]);
    assert |NonZeros(s[1..])| == Ind(s[1]) + Ind(s[2]) + Ind(s[3]);
  }

  /** 1 for an occupied cell, 0 for an empty one. */
  function Ind(v: nat): nat
  {
    if v != 0 then 1 else 0
  }

  // ---------------------------------------------------------------------
  // compress
  // ---------------------------------------------------------------------

  /** compress is idempotent. */
  lemma CompressIdempotent(row: seq<nat>)
    ensures Compress(Compress(row)) == Compress(row)
  {
  }

  /** compress keeps the sum of the line. */
  lemma CompressSum(row: seq<nat>)
    ensures Sum(Compress(row)) == Sum(row)
  {
    var tiles := NonZeros(row);
    var pad := if |tiles| < Width then Width - |tiles| else 0;
    SumAppend(tiles, Zeros(pad));
    SumZeros(pad);
    SumNonZeros(row);
  }

  // ---------------------------------------------------------------------
  // merge: the single pass
  // ---------------------------------------------------------------------

  /** A step of the pass writes only the cells i and i + 1: the cells past
      k are still those of the input after k steps. */
  lemma {:induction false} ScannedAbove(s: seq<nat>, k: nat, m: nat)
    requires |s| >= Width && k < Width && k < m < |s|
    ensures Scanned(s, k)[m] == s[m]
  {
    if k > 0 {
      ScannedAbove(s, k - 1, m);
    }
  }

  /** Once the pass has gone past cell j, that cell keeps its value. */
  lemma {:induction false} ScannedFrozen(s: seq<nat>, j: nat, k: nat)
    requires |s| >= Width && j < k < Width
    ensures Scanned(s, k)[j] == Scanned(s, j + 1)[j]
  {
    if k > j + 1 {
      ScannedFrozen(s, j, k - 1);
    }
  }

  /** Single pass: a merged pair leaves the doubled value in its left cell
      and an empty right cell until the end of the pass, and the right cell
      is never merged again with its own right neighbour. */
  lemma MergesOnce(s: seq<nat>, i: nat)
    requires |s| >= Width && i < Width - 1 && MergesAt(s, i)
    ensures i + 1 < Width - 1 ==> !MergesAt(s, i + 1)
    ensures MergePass(s)[i] == 2 * Scanned(s, i)[i]
    ensures MergePass(s)[i + 1] == 0
  {
    ScannedFrozen(s, i, Width - 1);
    if i + 1 < Width - 1 {
      ScannedFrozen(s, i + 1, Width - 1);
    }
  }

  /** Writing v into cell i changes the sum and the occupied count by the
      difference between v and the old value. */
  lemma {:induction false} UpdateCounts(s: seq<nat>, i: nat, v: nat)
    requires i < |s|
    ensures Sum(s[i := v]) + s[i] == Sum(s) + v
    ensures Occupied(s[i := v]) + Ind(s[i]) == Occupied(s) + Ind(v)
  {
    var t := s[i := v];
    assert Occupied(s) == Ind(s[0]) + Occupied(s[1..]);
    assert Occupied(t) == Ind(t[0]) + Occupied(t[1..]);
    if i > 0 {
      assert t[1..] == s[1..][i - 1 := v];
      UpdateCounts(s[1..], i - 1, v);
    } else {
      assert t[1..] == s[1..];
    }
  }

  /** Each merge empties exactly one cell; a step without a merge changes nothing. */
  lemma MergeAtCounts(t: seq<nat>, j: nat)
    requires j + 1 < |t|
    ensures Sum(MergeAt(t, j)) == Sum(t)
    ensures Occupied(MergeAt(t, j)) + (if t[j] == t[j + 1] && t[j] != 0 then 1 else 0) == Occupied(t)
  {
    if t[j] == t[j + 1] && t[j] != 0 {
      UpdateCounts(t, j, 2 * t[j]);
      UpdateCounts(t[j := 2 * t[j]], j + 1, 0);
    }
  }

  /** The first k steps keep the sum and empty one cell per merge. */
  lemma {:induction false} ScannedCounts(s: seq<nat>, k: nat)
    requires |s| >= Width && k < Width
    ensures Sum(Scanned(s, k)) == Sum(s)
    ensures Occupied(Scanned(s, k)) + MergeCount(s, k) == Occupied(s)
  {
    if k > 0 {
      ScannedCounts(s, k - 1);
      MergeAtCounts(Scanned(s, k - 1), k - 1);
    }
  }

  /** A pass without merges leaves the line as it was. */
  lemma {:induction false} NoMergesNoChange(s: seq<nat>, k: nat)
    requires |s| >= Width && k < Width && MergeCount(s, k) == 0
    ensures Scanned(s, k) == s
  {
    if k > 0 {
      NoMergesNoChange(s, k - 1);
    }
  }

  // ---------------------------------------------------------------------
  // The line operation
  // ---------------------------------------------------------------------

  /** The line operation keeps the sum of the line. */
  lemma SlideSum(line: seq<nat>)
    ensures Sum(Slide(line)) == Sum(line)
  {
    var c := Compress(line);
    CompressSum(line);
    ScannedCounts(c, Width - 1);
    CompressSum(MergePass(c));
  }

  /** The line operation empties exactly one cell per merge of its pass,
      so it never adds an occupied cell. */
  lemma SlideOccupied(line: seq<nat>)
    ensures Occupied(Slide(line)) + MergeCount(Compress(line), Width - 1) == Occupied(line)
    ensures Occupied(Slide(line)) <= Occupied(line)
  {
    ScannedCounts(Compress(line), Width - 1);
  }

  lemma NonZerosSingle(v: nat)
    ensures NonZeros([v]) == if v == 0 then [] else [v]
  {
    assert [v][1..] == [];
  }

  /** One step of the pass as a step of the reference merge: the cells
      settled so far followed by the reference merge of the rest describe
      the same result before and after the step. */
  lemma MergeAtCombines(t: seq<nat>, j: nat)
    requires j + 1 < |t|
    requires t[j + 1] == 0 ==> NonZeros(t[j + 1..]) == []
    ensures var u := MergeAt(t, j);
            NonZeros(u[..j + 1]) + Combine(NonZeros(u[j + 1..])) == NonZeros(t[..j]) + Combine(NonZeros(t[j..]))
  {
    var x, y := t[j], t[j + 1];
    var u := MergeAt(t, j);
    var pre := NonZeros(t[..j]);
    var q := NonZeros(t[j + 1..]);
    var rest := NonZeros(t[j + 2..]);
    assert NonZeros(t[j..]) == NonZeros([x]) + q by {
      assert t[j..] == [x] + t[j + 1..];
      NonZerosAppend([x], t[j + 1..]);
    }
    assert q == NonZeros([y]) + rest by {
      assert t[j + 1..] == [y] + t[j + 2..];
      NonZerosAppend([y], t[j + 2..]);
    }
    NonZerosSingle(x);
    NonZerosSingle(y);
    assert NonZeros(u[..j + 1]) == pre + NonZeros([u[j]]) by {
      assert u[..j + 1] == t[..j] + [u[j]];
      NonZerosAppend(t[..j], [u[j]]);
    }
    assert NonZeros(u[j + 1..]) == NonZeros([u[j + 1]]) + rest by {
      assert u[j + 1..] == [u[j + 1]] + t[j + 2..];
      NonZerosAppend([u[j + 1]], t[j + 2..]);
    }
    if x == y && x != 0 {
      NonZerosSingle(2 * x);
      NonZerosSingle(0);
      CombinePair(pre, x, rest);
    } else {
      assert u == t;
      CombineKeep(pre, x, q);
    }
  }

  /** Reference merge of two equal tiles at the front. */
  lemma CombinePair(pre: seq<nat>, x: nat, rest: seq<nat>)
    ensures (pre + [2 * x]) + Combine([] + rest) == pre + Combine([x] + ([x] + rest))
  {
    assert [] + rest == rest;
    assert [x] + ([x] + rest) == [x, x] + rest;
    assert ([x, x] + rest)[2..] == rest;
  }

  /** Reference merge when the front tile has no equal right neighbour. */
  lemma CombineKeep(pre: seq<nat>, x: nat, q: seq<nat>)
    requires x == 0 || q == [] || q[0] != x
    ensures (pre + (if x == 0 then [] else [x])) + Combine(q) == pre + Combine((if x == 0 then [] else [x]) + q)
  {
    if x == 0 {
      assert [] + q == q;
      assert pre + [] == pre;
    } else if q != [] {
      assert ([x] + q)[1..] == q;
    }
  }

  /** The scan as the reference merge: after k steps, the settled cells
      followed by the reference merge of the rest give the reference merge
      of the whole packed line. */
  lemma {:induction false} ScannedCombines(s: seq<nat>, k: nat)
    requires |s| == Width && Packed(s) && k < Width
    ensures NonZeros(Scanned(s, k)[..k]) + Combine(NonZeros(Scanned(s, k)[k..])) == Combine(NonZeros(s))
  {
    if k == 0 {
      assert Scanned(s, 0)[..0] == [];
      assert Scanned(s, 0)[0..] == s;
    } else {
      var t := Scanned(s, k - 1);
      ScannedCombines(s, k - 1);
      ScannedAbove(s, k - 1, k);
      if t[k] == 0 {
        NonZerosAfterGap(s, k);
        assert t[k..] == s[k..] by {
          forall m | k <= m < |s| ensures t[m] == s[m] {
            ScannedAbove(s, k - 1, m);
          }
        }
      }
      MergeAtCombines(t, k - 1);
    }
  }

  /** Reference merge of tiles that are all occupied: again all occupied,
      and no longer than the input. */
  lemma {:induction false} CombineOccupied(tiles: seq<nat>)
    requires forall i :: 0 <= i < |tiles| ==> tiles[i] != 0
    ensures |Combine(tiles)| <= |tiles|
    ensures forall i :: 0 <= i < |Combine(tiles)| ==> Combine(tiles)[i] != 0
  {
    if |tiles| >= 2 {
      if tiles[0] == tiles[1] {
        CombineOccupied(tiles[2..]);
      } else {
        CombineOccupied(tiles[1..]);
      }
    }
  }

  /** The line operation agrees with the reference: the occupied cells of a
      line, merged pairwise from the front, then empty cells. */
  lemma SlideCombines(line: seq<nat>)
    requires |line| <= Width
    ensures var m := Combine(NonZeros(line));
            |m| <= Width && Slide(line) == m + Zeros(Width - |m|)
  {
    var c := Compress(line);
    var p := MergePass(c);
    ScannedCombines(c, Width - 1);
    var last := Width - 1;
    assert p == p[..last] + p[last..];
    NonZerosAppend(p[..last], p[last..]);
    assert NonZeros(p) == Combine(NonZeros(line));
    CombineOccupied(NonZeros(line));
  }

  /** A line with every cell occupied and no equal neighbours does not move. */
  lemma SlideFixed(line: seq<nat>)
    requires |line| == Width
    requires forall i :: 0 <= i < Width ==> line[i] != 0
    requires forall i :: 0 <= i < Width - 1 ==> line[i] != line[i + 1]
    ensures Slide(line) == line
  {
    NonZerosOfOccupied(line);
    assert Compress(line) == line;
    NoMergesFixed(line, Width - 1);
  }

  lemma {:induction false} NoMergesFixed(line: seq<nat>, k: nat)
    requires |line| == Width && k < Width
    requires forall i :: 0 <= i < Width - 1 ==> line[i] != line[i + 1]
    ensures Scanned(line, k) == line
  {
    if k > 0 {
      NoMergesFixed(line, k - 1);
    }
  }

  /** A line the operation changes ends with at least one empty cell. */
  lemma SlideChangedLeavesRoom(line: seq<nat>)
    requires |line| == Width && Slide(line) != line
    ensures exists i :: 0 <= i < Width && Slide(line)[i] == 0
  {
    var r := Slide(line);
    if forall i :: 0 <= i < Width ==> r[i] != 0 {
      NonZerosOfOccupied(r);
      SlideOccupied(line);
      var c := Compress(line);
      assert MergeCount(c, Width - 1) == 0;
      OccupiedFull(line);
      NonZerosOfOccupied(line);
      assert c == line;
      NoMergesNoChange(c, Width - 1);
      NonZerosOfOccupied(c);
      assert false;
    }
  }

  // ---------------------------------------------------------------------
  // Tile values
  // ---------------------------------------------------------------------

  lemma {:induction false} NonZerosTiles(s: seq<nat>)
    requires AllTiles(s)
    ensures AllTiles(NonZeros(s))
  {
    if s != [] {
      NonZerosTiles(s[1..]);
    }
  }

  lemma {:induction false} ScannedTiles(s: seq<nat>, k: nat)
    requires |s| >= Width && k < Width && AllTiles(s)
    ensures AllTiles(Scanned(s, k))
  {
    if k > 0 {
      ScannedTiles(s, k - 1);
      var t := Scanned(s, k - 1);
      var v := t[k - 1];
      assert IsTile(v);
      assert IsTile(2 * v) by {
        if v != 0 {
          assert (2 * v) / 2 == v;
        }
      }
    }
  }

  /** The line operation only produces tile values from tile values:
      merging two equal powers of two gives a power of two. */
  lemma SlideTiles(line: seq<nat>)
    requires AllTiles(line)
    ensures AllTiles(Slide(line))
  {
    NonZerosTiles(line);
    ScannedTiles(Compress(line), Width - 1);
    NonZerosTiles(MergePass(Compress(line)));
  }
}
