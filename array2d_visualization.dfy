/**
 * The matrix visualiser: a grid of `rows` by `cols` string cells, resized within
 * bounds, searched in row-major order, transposed, rotated a quarter turn clockwise
 * and walked in a clockwise spiral. Each operation that builds a new grid does so
 * cell by cell in a nested loop and returns the trace of cells it touched.
 */
module Array2DVisualization {
  import opened Prelude
  import Text

  const MaxRows := 10
  const MaxCols := 12

  /** A cell position: row, then column, both from 0. */
  datatype Cell = Cell(row: int, col: int)

  type Matrix = seq<seq<string>>

  /** `m` has `r` rows of `c` cells each. */
  ghost predicate Shaped(m: Matrix, r: int, c: int) {
    |m| == r && forall i :: 0 <= i < r ==> |m[i]| == c
  }

  predicate InGrid(p: Cell, r: int, c: int) {
    0 <= p.row < r && 0 <= p.col < c
  }

  /** `makeMatrix(r, c, fill)`: `r` rows of `c` cells, all `fill`. */
  function MakeMatrix(r: nat, c: nat, fill: string): (m: Matrix)
    ensures Shaped(m, r, c) && forall i, j :: 0 <= i < r && 0 <= j < c ==> m[i][j] == fill
  {
    seq(r, _ => seq(c, _ => fill))
  }

  // ---------------------------------------------------------------------------
  // Specifications of the grid transformations
  // ---------------------------------------------------------------------------

  /** The transpose of an `r` by `c` grid: `c` by `r`, with `B[j][i] == A[i][j]`. */
  ghost function Transposed(m: Matrix, r: nat, c: nat): (b: Matrix)
    requires Shaped(m, r, c)
    ensures Shaped(b, c, r) && forall i, j :: 0 <= i < r && 0 <= j < c ==> b[j][i] == m[i][j]
  {
    seq(c, j requires 0 <= j < c => seq(r, i requires 0 <= i < r => m[i][j]))
  }

  /** The clockwise quarter turn of an `r` by `c` grid: `c` by `r`, with `B[j][r - 1 - i] == A[i][j]`. */
  ghost function Rotated(m: Matrix, r: nat, c: nat): (b: Matrix)
    requires Shaped(m, r, c)
    ensures Shaped(b, c, r) && forall i, j :: 0 <= i < r && 0 <= j < c ==> b[j][r - 1 - i] == m[i][j]
  {
    seq(c, j requires 0 <= j < c => seq(r, k requires 0 <= k < r => m[r - 1 - k][j]))
  }

  /** Transposing twice gives back the grid. */
  lemma TransposeTwice(m: Matrix, r: nat, c: nat)
    requires Shaped(m, r, c)
    ensures Transposed(Transposed(m, r, c), c, r) == m
  {
    var b := Transposed(Transposed(m, r, c), c, r);
    forall i | 0 <= i < r ensures b[i] == m[i] {
      assert forall j :: 0 <= j < c ==> b[i][j] == m[i][j];
    }
  }

  /** Two quarter turns turn the grid upside down and back to front. */
  lemma RotateTwice(m: Matrix, r: nat, c: nat)
    requires Shaped(m, r, c)
    ensures var h := Rotated(Rotated(m, r, c), c, r);
      Shaped(h, r, c) && forall i, j :: 0 <= i < r && 0 <= j < c ==> h[r - 1 - i][c - 1 - j] == m[i][j]
  {
    var q := Rotated(m, r, c);
    var h := Rotated(q, c, r);
    forall i, j | 0 <= i < r && 0 <= j < c ensures h[r - 1 - i][c - 1 - j] == m[i][j] {
      assert q[j][r - 1 - i] == m[i][j];
    }
  }

  /** Four quarter turns give back the grid. */
  lemma RotateFour(m: Matrix, r: nat, c: nat)
    requires Shaped(m, r, c)
    ensures Rotated(Rotated(Rotated(Rotated(m, r, c), c, r), r, c), c, r) == m
  {
    var h := Rotated(Rotated(m, r, c), c, r);
    RotateTwice(m, r, c);
    RotateTwice(h, r, c);
    var b := Rotated(Rotated(h, r, c), c, r);
    forall i | 0 <= i < r ensures b[i] == m[i] {
      forall j | 0 <= j < c ensures b[i][j] == m[i][j] {
        assert b[i][j] == h[r - 1 - i][c - 1 - j];
        assert h[r - 1 - i][c - 1 - j] == m[i][j];
      }
    }
  }

  /** The self-test grid `[[1, 2, 3], [4, 5, 6]]` and its expected transpose and quarter turn. */
  lemma SelfTests()
    ensures Transposed([["1", "2", "3"], ["4", "5", "6"]], 2, 3) == [["1", "4"], ["2", "5"], ["3", "6"]]
    ensures Rotated([["1", "2", "3"], ["4", "5", "6"]], 2, 3) == [["4", "1"], ["5", "2"], ["6", "3"]]
  {
    var a := [["1", "2", "3"], ["4", "5", "6"]];
    var t := Transposed(a, 2, 3);
    assert t[0] == ["1", "4"] && t[1] == ["2", "5"] && t[2] == ["3", "6"];
    var q := Rotated(a, 2, 3);
    assert q[0] == ["4", "1"] && q[1] == ["5", "2"] && q[2] == ["6", "3"];
  }

  /**
   * The grid `applySize` builds: `r` by `c`, the overlapping top-left block taken from
   * the old `rows` by `cols` grid and every other cell empty.
   */
  ghost function Resized(m: Matrix, rows: nat, cols: nat, r: nat, c: nat): (b: Matrix)
    requires Shaped(m, rows, cols)
    ensures Shaped(b, r, c)
    ensures forall i, j :: 0 <= i < r && 0 <= j < c ==>
      b[i][j] == if i < rows && j < cols then m[i][j] else ""
  {
    seq(r, i requires 0 <= i < r => seq(c, j requires 0 <= j < c => if i < rows && j < cols then m[i][j] else ""))
  }

  /** Growing a grid and shrinking it back gives back the grid. */
  lemma ResizeRoundTrip(m: Matrix, rows: nat, cols: nat, r: nat, c: nat)
    requires Shaped(m, rows, cols) && rows <= r && cols <= c
    ensures Resized(Resized(m, rows, cols, r, c), r, c, rows, cols) == m
  {
    var b := Resized(Resized(m, rows, cols, r, c), r, c, rows, cols);
    forall i | 0 <= i < rows ensures b[i] == m[i] {
      assert forall j :: 0 <= j < cols ==> b[i][j] == m[i][j];
    }
  }

  // ---------------------------------------------------------------------------
  // Row-major order and traces
  // ---------------------------------------------------------------------------

  /** The first `n` cells of row `i`, left to right. */
  function RowCells(i: int, n: nat): (s: seq<Cell>)
    ensures |s| == n && forall k :: 0 <= k < n ==> s[k] == Cell(i, k)
  {
    seq(n, k requires 0 <= k < n => Cell(i, k))
  }

  /** The cells of the first `r` rows of a grid `c` wide, in row-major order. */
  function RowMajor(r: nat, c: nat): (s: seq<Cell>)
  {
    if r == 0 then [] else RowMajor(r - 1, c) + RowCells(r - 1, c)
  }

  /** Row-major order lists every cell of the grid exactly once: `r * c` cells, none twice. */
  lemma {:induction false} RowMajorCells(r: nat, c: nat)
    ensures |RowMajor(r, c)| == r * c
    ensures forall p :: p in RowMajor(r, c) <==> InGrid(p, r, c)
    ensures forall k, l :: 0 <= k < l < |RowMajor(r, c)| ==> RowMajor(r, c)[k] != RowMajor(r, c)[l]
  {
    if r > 0 {
      RowMajorCells(r - 1, c);
      var a, b := RowMajor(r - 1, c), RowCells(r - 1, c);
      assert RowMajor(r, c) == a + b;
      assert r * c == (r - 1) * c + c;
      forall p ensures p in a + b <==> InGrid(p, r, c) {
        if InGrid(p, r, c) && p.row == r - 1 {
          assert b[p.col] == p;
        }
      }
      forall k, l | 0 <= k < l < |a + b| ensures (a + b)[k] != (a + b)[l] {
        if k < |a| && l >= |a| {
          assert (a + b)[k] in a;
        }
      }
    }
  }

  /** The messages of the matrix traces. */
  datatype MatrixMsg =
    | Check(target: string)       // "Check (i,j) == target?"
    | FoundAt                     // "Found at (i,j)"
    | NotFound                    // "Not found"
    | Move(dst: Cell, src: Cell)  // "B[..][..] ← A[..][..]"
    | Visit                       // "Visit (i,j)"
    | RowHead(row: int)           // "Row i"
    | ColHead(col: int)           // "Col j"
    | IndexInto(at: Cell)         // "Index into A[i][j]"
    | FillCell                    // "Fill (i,j)"
    | RandCell                    // "Rand (i,j)"
    | Prepare                     // "Prepare set A[i][j]"
    | Assign(value: string)       // "A[i][j] ← value"

  /** One animation frame: a message, the highlighted cells and the highlighted lines. */
  datatype Frame = Frame(msg: MatrixMsg, cells: seq<Cell>, pc: seq<int>)

  /** The frame each cell of `cells` contributes, in order. */
  function Frames(cells: seq<Cell>, f: Cell -> Frame): (t: seq<Frame>)
    ensures |t| == |cells| && forall k :: 0 <= k < |cells| ==> t[k] == f(cells[k])
  {
    seq(|cells|, k requires 0 <= k < |cells| => f(cells[k]))
  }

  lemma FramesSnoc(cells: seq<Cell>, p: Cell, f: Cell -> Frame)
    ensures Frames(cells + [p], f) == Frames(cells, f) + [f(p)]
  {
  }

  function CheckFrame(target: string): Cell -> Frame {
    (p: Cell) => Frame(Check(target), [p], [1, 2])
  }

  function TransposeFrame(p: Cell): Frame {
    Frame(Move(Cell(p.col, p.row), p), [p], [1, 2])
  }

  function RotateFrame(r: int): Cell -> Frame {
    (p: Cell) => Frame(Move(Cell(p.col, r - 1 - p.row), p), [p], [1, 2])
  }

  /** Cell `p` comes before cell `q` in row-major order. */
  predicate Before(p: Cell, q: Cell) {
    p.row < q.row || (p.row == q.row && p.col < q.col)
  }

  // ---------------------------------------------------------------------------
  // The nested loops that build a new grid, and the row-major search
  // ---------------------------------------------------------------------------

  /**
   * The transpose loop of `onTranspose` (and of the self-test `transpose`): for each
   * cell in row-major order, copy `A[i][j]` to `B[j][i]` and record the move.
   */
  method TransposeGrid(m: Matrix, r: nat, c: nat) returns (next: Matrix, t: seq<Frame>)
    requires Shaped(m, r, c)
    ensures next == Transposed(m, r, c)
    ensures t == Frames(RowMajor(r, c), TransposeFrame)
  {
    next := MakeMatrix(c, r, "");
    t := [];
    for i := 0 to r
      invariant Shaped(next, c, r)
      invariant forall i', j :: 0 <= i' < i && 0 <= j < c ==> next[j][i'] == m[i'][j]
      invariant t == Frames(RowMajor(i, c), TransposeFrame)
    {
      for j := 0 to c
        invariant Shaped(next, c, r)
        invariant forall i', j' :: 0 <= i' < i && 0 <= j' < c ==> next[j'][i'] == m[i'][j']
        invariant forall j' :: 0 <= j' < j ==> next[j'][i] == m[i][j']
        invariant t == Frames(RowMajor(i, c) + RowCells(i, j), TransposeFrame)
      {
        RowMajorStep(i, c, j, TransposeFrame);
        t := t + [TransposeFrame(Cell(i, j))];
        next := next[j := next[j][i := m[i][j]]];
      }
    }
    SameGrid(next, Transposed(m, r, c), c, r);
  }

  /**
   * The quarter-turn loop of `onRotate90` (and of the self-test `rotate90`): for each
   * cell in row-major order, copy `A[i][j]` to `B[j][r - 1 - i]` and record the move.
   */
  method RotateGrid(m: Matrix, r: nat, c: nat) returns (next: Matrix, t: seq<Frame>)
    requires Shaped(m, r, c)
    ensures next == Rotated(m, r, c)
    ensures t == Frames(RowMajor(r, c), RotateFrame(r))
  {
    next := MakeMatrix(c, r, "");
    t := [];
    for i := 0 to r
      invariant Shaped(next, c, r)
      invariant forall i', j :: 0 <= i' < i && 0 <= j < c ==> next[j][r - 1 - i'] == m[i'][j]
      invariant t == Frames(RowMajor(i, c), RotateFrame(r))
    {
      for j := 0 to c
        invariant Shaped(next, c, r)
        invariant forall i', j' :: 0 <= i' < i && 0 <= j' < c ==> next[j'][r - 1 - i'] == m[i'][j']
        invariant forall j' :: 0 <= j' < j ==> next[j'][r - 1 - i] == m[i][j']
        invariant t == Frames(RowMajor(i, c) + RowCells(i, j), RotateFrame(r))
      {
        RowMajorStep(i, c, j, RotateFrame(r));
        t := t + [RotateFrame(r)(Cell(i, j))];
        next := next[j := next[j][r - 1 - i := m[i][j]]];
      }
    }
    var b := Rotated(m, r, c);
    forall j, k | 0 <= j < c && 0 <= k < r ensures next[j][k] == b[j][k] {
      assert next[j][r - 1 - (r - 1 - k)] == m[r - 1 - k][j];
    }
    SameGrid(next, b, c, r);
  }

  /**
   * `onSearch`: check the cells in row-major order and stop at the first whose value
   * equals the target. The trace checks every cell up to and including that one, then
   * reports it; without a match it checks every cell and reports "Not found".
   */
  method SearchGrid(m: Matrix, r: nat, c: nat, target: string) returns (t: seq<Frame>, found: Option<Cell>)
    requires Shaped(m, r, c)
    ensures found.Some? ==> InGrid(found.value, r, c) && m[found.value.row][found.value.col] == target
    ensures found.Some? ==> forall p :: InGrid(p, r, c) && Before(p, found.value) ==> m[p.row][p.col] != target
    ensures found.Some? ==> t == Frames(RowMajor(found.value.row, c) + RowCells(found.value.row, found.value.col + 1),
                                        CheckFrame(target)) + [Frame(FoundAt, [found.value], [3])]
    ensures found.None? ==> forall p :: InGrid(p, r, c) ==> m[p.row][p.col] != target
    ensures found.None? ==> t == Frames(RowMajor(r, c), CheckFrame(target)) + [Frame(NotFound, [], [4])]
  {
    t := [];
    for i := 0 to r
      invariant forall p :: InGrid(p, i, c) ==> m[p.row][p.col] != target
      invariant t == Frames(RowMajor(i, c), CheckFrame(target))
    {
      for j := 0 to c
        invariant forall p :: InGrid(p, i, c) ==> m[p.row][p.col] != target
        invariant forall j' :: 0 <= j' < j ==> m[i][j'] != target
        invariant t == Frames(RowMajor(i, c) + RowCells(i, j), CheckFrame(target))
      {
        RowMajorStep(i, c, j, CheckFrame(target));
        t := t + [CheckFrame(target)(Cell(i, j))];
        if m[i][j] == target {
          found := Some(Cell(i, j));
          t := t + [Frame(FoundAt, [Cell(i, j)], [3])];
          return;
        }
      }
    }
    found := None;
    t := t + [Frame(NotFound, [], [4])];
  }

  /** One more cell of row `i` extends the frames of the row-major walk by that cell's frame. */
  lemma RowMajorStep(i: nat, c: nat, j: nat, f: Cell -> Frame)
    requires j < c
    ensures Frames(RowMajor(i, c) + RowCells(i, j + 1), f) == Frames(RowMajor(i, c) + RowCells(i, j), f) + [f(Cell(i, j))]
    ensures RowMajor(i, c) + RowCells(i, c) == RowMajor(i + 1, c)
  {
    assert RowMajor(i, c) + RowCells(i, j + 1) == RowMajor(i, c) + RowCells(i, j) + [Cell(i, j)];
    FramesSnoc(RowMajor(i, c) + RowCells(i, j), Cell(i, j), f);
  }

  /** Two grids of the same shape that agree on every cell are equal. */
  lemma SameGrid(a: Matrix, b: Matrix, r: nat, c: nat)
    requires Shaped(a, r, c) && Shaped(b, r, c)
    requires forall i, j :: 0 <= i < r && 0 <= j < c ==> a[i][j] == b[i][j]
    ensures a == b
  {
    forall i | 0 <= i < r ensures a[i] == b[i] {
      assert forall j :: 0 <= j < c ==> a[i][j] == b[i][j];
    }
  }

  // ---------------------------------------------------------------------------
  // Spiral walk
  // ---------------------------------------------------------------------------

  /** The rows `top..bottom` and columns `left..right` still to visit, bounds inclusive. */
  datatype Rect = Rect(top: int, bottom: int, left: int, right: int)

  predicate InRect(p: Cell, q: Rect) {
    q.top <= p.row <= q.bottom && q.left <= p.col <= q.right
  }

  /** The number of cells of `q`, assuming each bound at most one past the other. */
  function Area(q: Rect): int {
    if q.top <= q.bottom && q.left <= q.right then (q.bottom - q.top + 1) * (q.right - q.left + 1) else 0
  }

  /** `q` lies inside the `r` by `c` grid, each bound at most one past the other. */
  predicate Inside(q: Rect, r: int, c: int) {
    0 <= q.top <= q.bottom + 1 && q.bottom < r && 0 <= q.left <= q.right + 1 && q.right < c
  }

  ghost predicate Distinct(s: seq<Cell>) {
    forall k, l :: 0 <= k < l < |s| ==> s[k] != s[l]
  }

  /**
   * The spiral's invariant: `out` lists, once each, exactly the cells of the grid that
   * are outside the rectangle still to visit.
   */
  ghost predicate Peeled(out: seq<Cell>, r: int, c: int, q: Rect) {
    Inside(q, r, c) && Distinct(out)
    && (forall p <- out :: InGrid(p, r, c) && !InRect(p, q))
    && (forall p :: InGrid(p, r, c) && !InRect(p, q) ==> p in out)
    && |out| + Area(q) == r * c
  }

  /** Appending the cells `seg` that separate `q` from a smaller `q'` keeps the invariant. */
  lemma Peel(out: seq<Cell>, seg: seq<Cell>, r: int, c: int, q: Rect, q': Rect)
    requires Peeled(out, r, c, q) && Inside(q', r, c)
    requires Distinct(seg) && |seg| == Area(q) - Area(q')
    requires forall p <- seg :: InRect(p, q) && !InRect(p, q')
    requires forall p :: InRect(p, q) && !InRect(p, q') ==> p in seg
    requires forall p :: InRect(p, q') ==> InRect(p, q)
    ensures Peeled(out + seg, r, c, q')
  {
    var o := out + seg;
    forall k, l | 0 <= k < l < |o| ensures o[k] != o[l] {
      if k < |out| && l >= |out| {
        assert o[k] in out && o[l] in seg;
      }
    }
  }

  /** Row `i` from column `a` to `b`, left to right (empty when `b == a - 1`). */
  function RowRun(i: int, a: int, b: int): (s: seq<Cell>)
    requires a <= b + 1
    ensures |s| == b - a + 1 && forall k :: 0 <= k < |s| ==> s[k] == Cell(i, a + k)
  {
    seq(b - a + 1, k requires 0 <= k < b - a + 1 => Cell(i, a + k))
  }

  /** Row `i` from column `b` back to `a`, right to left. */
  function RowRunBack(i: int, b: int, a: int): (s: seq<Cell>)
    requires a <= b + 1
    ensures |s| == b - a + 1 && forall k :: 0 <= k < |s| ==> s[k] == Cell(i, b - k)
  {
    seq(b - a + 1, k requires 0 <= k < b - a + 1 => Cell(i, b - k))
  }

  /** Column `j` from row `a` down to `b`. */
  function ColRun(j: int, a: int, b: int): (s: seq<Cell>)
    requires a <= b + 1
    ensures |s| == b - a + 1 && forall k :: 0 <= k < |s| ==> s[k] == Cell(a + k, j)
  {
    seq(b - a + 1, k requires 0 <= k < b - a + 1 => Cell(a + k, j))
  }

  /** Column `j` from row `b` back up to `a`. */
  function ColRunBack(j: int, b: int, a: int): (s: seq<Cell>)
    requires a <= b + 1
    ensures |s| == b - a + 1 && forall k :: 0 <= k < |s| ==> s[k] == Cell(b - k, j)
  {
    seq(b - a + 1, k requires 0 <= k < b - a + 1 => Cell(b - k, j))
  }

  /** Visiting the top row of a non-empty rectangle peels it off. */
  lemma PeelTop(out: seq<Cell>, r: int, c: int, q: Rect)
    requires Peeled(out, r, c, q) && q.top <= q.bottom && q.left <= q.right
    ensures Peeled(out + RowRun(q.top, q.left, q.right), r, c, q.(top := q.top + 1))
  {
    var seg, q' := RowRun(q.top, q.left, q.right), q.(top := q.top + 1);
    forall p | InRect(p, q) && !InRect(p, q') ensures p in seg {
      assert seg[p.col - q.left] == p;
    }
    assert Area(q) == Area(q') + (q.right - q.left + 1) by {
      var h, w := q.bottom - q.top + 1, q.right - q.left + 1;
      assert h * w == (h - 1) * w + w;
    }
    Peel(out, seg, r, c, q, q');
  }

  /** Visiting the right column of a non-empty rectangle peels it off. */
  lemma PeelRight(out: seq<Cell>, r: int, c: int, q: Rect)
    requires Peeled(out, r, c, q) && q.top <= q.bottom && q.left <= q.right
    ensures Peeled(out + ColRun(q.right, q.top, q.bottom), r, c, q.(right := q.right - 1))
  {
    var seg, q' := ColRun(q.right, q.top, q.bottom), q.(right := q.right - 1);
    forall p | InRect(p, q) && !InRect(p, q') ensures p in seg {
      assert seg[p.row - q.top] == p;
    }
    assert Area(q) == Area(q') + (q.bottom - q.top + 1) by {
      var h, w := q.bottom - q.top + 1, q.right - q.left + 1;
      assert h * w == h * (w - 1) + h;
    }
    Peel(out, seg, r, c, q, q');
  }

  /** Visiting the bottom row, right to left, of a non-empty rectangle peels it off. */
  lemma PeelBottom(out: seq<Cell>, r: int, c: int, q: Rect)
    requires Peeled(out, r, c, q) && q.top <= q.bottom && q.left <= q.right
    ensures Peeled(out + RowRunBack(q.bottom, q.right, q.left), r, c, q.(bottom := q.bottom - 1))
  {
    var seg, q' := RowRunBack(q.bottom, q.right, q.left), q.(bottom := q.bottom - 1);
    forall p | InRect(p, q) && !InRect(p, q') ensures p in seg {
      assert seg[q.right - p.col] == p;
    }
    assert Area(q) == Area(q') + (q.right - q.left + 1) by {
      var h, w := q.bottom - q.top + 1, q.right - q.left + 1;
      assert h * w == (h - 1) * w + w;
    }
    Peel(out, seg, r, c, q, q');
  }

  /** Visiting the left column, bottom to top, of a non-empty rectangle peels it off. */
  lemma PeelLeft(out: seq<Cell>, r: int, c: int, q: Rect)
    requires Peeled(out, r, c, q) && q.top <= q.bottom && q.left <= q.right
    ensures Peeled(out + ColRunBack(q.left, q.bottom, q.top), r, c, q.(left := q.left + 1))
  {
    var seg, q' := ColRunBack(q.left, q.bottom, q.top), q.(left := q.left + 1);
    forall p | InRect(p, q) && !InRect(p, q') ensures p in seg {
      assert seg[q.bottom - p.row] == p;
    }
    assert Area(q) == Area(q') + (q.bottom - q.top + 1) by {
      var h, w := q.bottom - q.top + 1, q.right - q.left + 1;
      assert h * w == h * (w - 1) + h;
    }
    Peel(out, seg, r, c, q, q');
  }

  /**
   * The clockwise spiral over the rectangle `q`: its top row left to right, its right
   * column downwards, its bottom row right to left and its left column upwards, then
   * the spiral of the rectangle inside. A side is left out, and the spiral ends, as
   * soon as the rows or the columns are used up.
   */
  function SpiralOf(q: Rect): seq<Cell>
    decreases q.bottom - q.top + q.right - q.left
  {
    if q.top > q.bottom || q.left > q.right then []
    else
      var topRow := RowRun(q.top, q.left, q.right);
      if q.top + 1 > q.bottom then topRow
      else
        var rightCol := ColRun(q.right, q.top + 1, q.bottom);
        if q.left > q.right - 1 then topRow + rightCol
        else
          var bottomRow := RowRunBack(q.bottom, q.right - 1, q.left);
          if q.top + 1 > q.bottom - 1 then topRow + rightCol + bottomRow
          else
            topRow + rightCol + bottomRow + ColRunBack(q.left, q.bottom - 1, q.top + 1)
              + SpiralOf(Rect(q.top + 1, q.bottom - 1, q.left + 1, q.right - 1))
  }

  /**
   * The clockwise spiral of `onSpiral` (and of the self-test `spiralOrder`): the cells
   * come in the order `SpiralOf` gives for the whole grid, and every cell of the grid
   * is visited exactly once, `r * c` visits in all.
   */
  method SpiralCells(r: nat, c: nat) returns (out: seq<Cell>)
    ensures out == SpiralOf(Rect(0, r - 1, 0, c - 1))
    ensures forall p <- out :: InGrid(p, r, c)
    ensures forall p :: InGrid(p, r, c) ==> p in out
    ensures Distinct(out) && |out| == r * c
  {
    ghost var whole := SpiralOf(Rect(0, r - 1, 0, c - 1));
    var top, bottom, left, right := 0, r - 1, 0, c - 1;
    out := [];
    while top <= bottom && left <= right
      invariant out + SpiralOf(Rect(top, bottom, left, right)) == whole
      decreases bottom - top + right - left
    {
      out, top, bottom, left, right := SpiralTurn(out, top, bottom, left, right);
    }
    assert out == whole;
    SpiralVisitsEveryCell(r, c);
  }

  /**
   * One pass of the `while` loop of `onSpiral`: the top row, the right column, the bottom
   * row backwards and the left column upwards, each followed by the `break` that ends
   * the walk once the rows or the columns are used up. What it appends, followed by the
   * spiral of what is left, is the spiral of the rectangle it started from.
   */
  method SpiralTurn(out: seq<Cell>, top: int, bottom: int, left: int, right: int)
    returns (o: seq<Cell>, top': int, bottom': int, left': int, right': int)
    requires top <= bottom && left <= right
    ensures o + SpiralOf(Rect(top', bottom', left', right')) == out + SpiralOf(Rect(top, bottom, left, right))
    ensures bottom' - top' + right' - left' < bottom - top + right - left
  {
    ghost var q := Rect(top, bottom, left, right);
    SpiralTail(out, q, out + SpiralOf(q));
    o, top', bottom', left', right' := out, top, bottom, left, right;
    o := WalkRow(o, top', left', right');
    top' := top' + 1;
    if top' > bottom' { return; }
    o := WalkCol(o, right', top', bottom');
    right' := right' - 1;
    if left' > right' { return; }
    o := WalkRowBack(o, bottom', right', left');
    bottom' := bottom' - 1;
    if top' > bottom' { return; }
    o := WalkColBack(o, left', bottom', top');
    left' := left' + 1;
  }

  /** The spiral of the whole grid visits every cell of the grid exactly once. */
  lemma SpiralVisitsEveryCell(r: nat, c: nat)
    ensures forall p <- SpiralOf(Rect(0, r - 1, 0, c - 1)) :: InGrid(p, r, c)
    ensures forall p :: InGrid(p, r, c) ==> p in SpiralOf(Rect(0, r - 1, 0, c - 1))
    ensures Distinct(SpiralOf(Rect(0, r - 1, 0, c - 1))) && |SpiralOf(Rect(0, r - 1, 0, c - 1))| == r * c
  {
    var q := Rect(0, r - 1, 0, c - 1);
    SpiralCovers([], r, c, q);
    assert [] + SpiralOf(q) == SpiralOf(q);
  }

  /**
   * Whatever `out` has already visited outside `q`, following it with the spiral of `q`
   * visits every cell of the grid exactly once.
   */
  lemma {:induction false} SpiralCovers(out: seq<Cell>, r: int, c: int, q: Rect)
    requires Peeled(out, r, c, q)
    ensures forall p <- out + SpiralOf(q) :: InGrid(p, r, c)
    ensures forall p :: InGrid(p, r, c) ==> p in out + SpiralOf(q)
    ensures Distinct(out + SpiralOf(q)) && |out + SpiralOf(q)| == r * c
    decreases q.bottom - q.top + q.right - q.left
  {
    var whole := out + SpiralOf(q);
    if q.top > q.bottom || q.left > q.right {
      assert whole == out;
      Finished(out, r, c, q);
    } else {
      SpiralTail(out, q, whole);
      var o, q' := TurnPeels(out, r, c, q);
      if q'.top > q'.bottom || q'.left > q'.right {
        assert o == whole;
        Finished(o, r, c, q');
      } else {
        assert o + SpiralOf(q') == whole;
        SpiralCovers(o, r, c, q');
      }
    }
  }

  /**
   * One turn of the spiral from `out`: `o` is `out` followed by the sides of `q` the turn
   * walks, and `q'` is what is left. Either the turn ended the spiral, or it walked all
   * four sides and `q'` is the rectangle inside.
   */
  lemma TurnPeels(out: seq<Cell>, r: int, c: int, q: Rect) returns (o: seq<Cell>, q': Rect)
    requires Peeled(out, r, c, q) && q.top <= q.bottom && q.left <= q.right
    ensures Peeled(o, r, c, q')
    ensures q.top + 1 > q.bottom ==> o == out + RowRun(q.top, q.left, q.right) && q'.top > q'.bottom
    ensures q.top + 1 <= q.bottom && q.left > q.right - 1 ==>
      o == out + RowRun(q.top, q.left, q.right) + ColRun(q.right, q.top + 1, q.bottom) && q'.left > q'.right
    ensures q.top + 1 <= q.bottom && q.left <= q.right - 1 && q.top + 1 > q.bottom - 1 ==>
      o == out + RowRun(q.top, q.left, q.right) + ColRun(q.right, q.top + 1, q.bottom)
        + RowRunBack(q.bottom, q.right - 1, q.left)
      && q'.top > q'.bottom
    ensures q.top + 1 <= q.bottom - 1 && q.left <= q.right - 1 ==>
      o == out + RowRun(q.top, q.left, q.right) + ColRun(q.right, q.top + 1, q.bottom)
        + RowRunBack(q.bottom, q.right - 1, q.left) + ColRunBack(q.left, q.bottom - 1, q.top + 1)
      && q' == Rect(q.top + 1, q.bottom - 1, q.left + 1, q.right - 1)
  {
    PeelTop(out, r, c, q);
    o, q' := out + RowRun(q.top, q.left, q.right), q.(top := q.top + 1);
    if q'.top > q'.bottom { return; }
    PeelRight(o, r, c, q');
    o, q' := o + ColRun(q.right, q.top + 1, q.bottom), q'.(right := q.right - 1);
    if q'.left > q'.right { return; }
    PeelBottom(o, r, c, q');
    o, q' := o + RowRunBack(q.bottom, q.right - 1, q.left), q'.(bottom := q.bottom - 1);
    if q'.top > q'.bottom { return; }
    PeelLeft(o, r, c, q');
    o, q' := o + ColRunBack(q.left, q.bottom - 1, q.top + 1), q'.(left := q.left + 1);
  }

  /** One turn of the spiral loop: what it appends, followed by the inner spiral, is the spiral of `q`. */
  lemma {:induction false} SpiralTail(o0: seq<Cell>, q: Rect, whole: seq<Cell>)
    requires o0 + SpiralOf(q) == whole && q.top <= q.bottom && q.left <= q.right
    ensures q.top + 1 > q.bottom ==> o0 + RowRun(q.top, q.left, q.right) == whole
    ensures q.top + 1 <= q.bottom && q.left > q.right - 1 ==>
      o0 + RowRun(q.top, q.left, q.right) + ColRun(q.right, q.top + 1, q.bottom) == whole
    ensures q.top + 1 <= q.bottom && q.left <= q.right - 1 && q.top + 1 > q.bottom - 1 ==>
      o0 + RowRun(q.top, q.left, q.right) + ColRun(q.right, q.top + 1, q.bottom)
        + RowRunBack(q.bottom, q.right - 1, q.left) == whole
    ensures q.top + 1 <= q.bottom - 1 && q.left <= q.right - 1 ==>
      o0 + RowRun(q.top, q.left, q.right) + ColRun(q.right, q.top + 1, q.bottom)
        + RowRunBack(q.bottom, q.right - 1, q.left) + ColRunBack(q.left, q.bottom - 1, q.top + 1)
        + SpiralOf(Rect(q.top + 1, q.bottom - 1, q.left + 1, q.right - 1)) == whole
  {
    var t := RowRun(q.top, q.left, q.right);
    if q.top + 1 <= q.bottom {
      var rc := ColRun(q.right, q.top + 1, q.bottom);
      assert o0 + (t + rc) == o0 + t + rc;
      if q.left <= q.right - 1 {
        var br := RowRunBack(q.bottom, q.right - 1, q.left);
        assert o0 + (t + rc + br) == o0 + t + rc + br;
        if q.top + 1 <= q.bottom - 1 {
          var lc := ColRunBack(q.left, q.bottom - 1, q.top + 1);
          var inner := SpiralOf(Rect(q.top + 1, q.bottom - 1, q.left + 1, q.right - 1));
          assert o0 + (t + rc + br + lc + inner) == o0 + t + rc + br + lc + inner;
        }
      }
    }
  }

  /** The spiral starts along the whole top row, left to right. */
  lemma SpiralStartsWithTopRow(r: nat, c: nat)
    requires r >= 1 && c >= 1
    ensures |SpiralOf(Rect(0, r - 1, 0, c - 1))| >= c
    ensures forall j :: 0 <= j < c ==> SpiralOf(Rect(0, r - 1, 0, c - 1))[j] == Cell(0, j)
  {
  }

  /** The self-test grid [[1, 2, 3], [4, 5, 6]] is read 1, 2, 3, 6, 5, 4. */
  lemma SpiralSelfTest()
    ensures SpiralOf(Rect(0, 1, 0, 2)) == [Cell(0, 0), Cell(0, 1), Cell(0, 2), Cell(1, 2), Cell(1, 1), Cell(1, 0)]
    ensures var a := [["1", "2", "3"], ["4", "5", "6"]];
      var s := SpiralOf(Rect(0, 1, 0, 2));
      seq(6, k requires 0 <= k < 6 => a[s[k].row][s[k].col]) == ["1", "2", "3", "6", "5", "4"]
  {
  }

  /** Once the rectangle still to visit is empty, every cell has been visited once. */
  lemma Finished(out: seq<Cell>, r: int, c: int, q: Rect)
    requires Peeled(out, r, c, q) && (q.top > q.bottom || q.left > q.right)
    ensures forall p <- out :: InGrid(p, r, c)
    ensures forall p :: InGrid(p, r, c) ==> p in out
    ensures Distinct(out) && |out| == r * c
  {
  }

  /** `for (j = a; j <= b; j++)`: visit row `i` left to right. */
  method WalkRow(out: seq<Cell>, i: int, a: int, b: int) returns (o: seq<Cell>)
    requires a <= b + 1
    ensures o == out + RowRun(i, a, b)
  {
    o := out;
    for j := a to b + 1
      invariant o == out + RowRun(i, a, j - 1)
    {
      assert RowRun(i, a, j) == RowRun(i, a, j - 1) + [Cell(i, j)];
      o := o + [Cell(i, j)];
    }
  }

  /** `for (i = a; i <= b; i++)`: visit column `j` downwards. */
  method WalkCol(out: seq<Cell>, j: int, a: int, b: int) returns (o: seq<Cell>)
    requires a <= b + 1
    ensures o == out + ColRun(j, a, b)
  {
    o := out;
    for i := a to b + 1
      invariant o == out + ColRun(j, a, i - 1)
    {
      assert ColRun(j, a, i) == ColRun(j, a, i - 1) + [Cell(i, j)];
      o := o + [Cell(i, j)];
    }
  }

  /** `for (j = b; j >= a; j--)`: visit row `i` right to left. */
  method WalkRowBack(out: seq<Cell>, i: int, b: int, a: int) returns (o: seq<Cell>)
    requires a <= b + 1
    ensures o == out + RowRunBack(i, b, a)
  {
    o := out;
    for j := b + 1 downto a
      invariant o == out + RowRunBack(i, b, j)
    {
      assert RowRunBack(i, b, j) == RowRunBack(i, b, j + 1) + [Cell(i, j)];
      o := o + [Cell(i, j)];
    }
  }

  /** `for (i = b; i >= a; i--)`: visit column `j` upwards. */
  method WalkColBack(out: seq<Cell>, j: int, b: int, a: int) returns (o: seq<Cell>)
    requires a <= b + 1
    ensures o == out + ColRunBack(j, b, a)
  {
    o := out;
    for i := b + 1 downto a
      invariant o == out + ColRunBack(j, b, i)
    {
      assert ColRunBack(j, b, i) == ColRunBack(j, b, i + 1) + [Cell(i, j)];
      o := o + [Cell(i, j)];
    }
  }

  /**
   * The self-test `spiralOrder`: the values met along the spiral, one per cell of the
   * grid.
   */
  method SpiralOrder(m: Matrix, r: nat, c: nat) returns (values: seq<string>, cells: seq<Cell>)
    requires Shaped(m, r, c)
    ensures cells == SpiralOf(Rect(0, r - 1, 0, c - 1))
    ensures forall p :: InGrid(p, r, c) ==> p in cells
    ensures Distinct(cells) && |values| == |cells| == r * c
    ensures forall k :: 0 <= k < |cells| ==> InGrid(cells[k], r, c) && values[k] == m[cells[k].row][cells[k].col]
  {
    cells := SpiralCells(r, c);
    assert forall k :: 0 <= k < |cells| ==> cells[k] in cells && InGrid(cells[k], r, c);
    values := seq(|cells|, k requires 0 <= k < |cells| => m[cells[k].row][cells[k].col]);
  }

  // ---------------------------------------------------------------------------
  // Filling the grid, and the row- and column-major walks
  // ---------------------------------------------------------------------------

  function FillFrame(p: Cell): Frame {
    Frame(FillCell, [p], [2, 3])
  }

  function RandFrame(p: Cell): Frame {
    Frame(RandCell, [p], [2, 3])
  }

  /**
   * The loop of `onFill` and `onRandom`: each cell, in row-major order, takes the value
   * `v` gives it, and the frame `f` gives it is recorded.
   */
  method FillGrid(r: nat, c: nat, v: Cell -> string, f: Cell -> Frame) returns (next: Matrix, t: seq<Frame>)
    ensures Shaped(next, r, c) && forall i, j :: 0 <= i < r && 0 <= j < c ==> next[i][j] == v(Cell(i, j))
    ensures t == Frames(RowMajor(r, c), f)
  {
    next := MakeMatrix(r, c, "");
    t := [];
    for i := 0 to r
      invariant Shaped(next, r, c)
      invariant forall i', j :: 0 <= i' < i && 0 <= j < c ==> next[i'][j] == v(Cell(i', j))
      invariant t == Frames(RowMajor(i, c), f)
    {
      for j := 0 to c
        invariant Shaped(next, r, c)
        invariant forall i', j' :: 0 <= i' < i && 0 <= j' < c ==> next[i'][j'] == v(Cell(i', j'))
        invariant forall j' :: 0 <= j' < j ==> next[i][j'] == v(Cell(i, j'))
        invariant t == Frames(RowMajor(i, c) + RowCells(i, j), f)
      {
        RowMajorStep(i, c, j, f);
        t := t + [f(Cell(i, j))];
        next := next[i := next[i][j := v(Cell(i, j))]];
      }
    }
  }

  /** The cells the `Visit` frames of a trace highlight, in order. */
  function Visited(t: seq<Frame>): seq<Cell> {
    if t == [] then [] else Visited(t[..|t| - 1]) + (if t[|t| - 1].msg.Visit? then t[|t| - 1].cells else [])
  }

  lemma VisitedSnoc(t: seq<Frame>, f: Frame)
    ensures Visited(t + [f]) == Visited(t) + (if f.msg.Visit? then f.cells else [])
  {
    assert (t + [f])[..|t|] == t;
  }

  /** The first `n` cells of column `j`, top to bottom. */
  function ColCells(j: int, n: nat): (s: seq<Cell>)
    ensures |s| == n && forall k :: 0 <= k < n ==> s[k] == Cell(k, j)
  {
    seq(n, k requires 0 <= k < n => Cell(k, j))
  }

  /** The cells of the first `c` columns of a grid `r` high, in column-major order. */
  function ColMajor(r: nat, c: nat): seq<Cell> {
    if c == 0 then [] else ColMajor(r, c - 1) + ColCells(c - 1, r)
  }

  /** Column-major order also lists every cell of the grid exactly once. */
  lemma {:induction false} ColMajorCells(r: nat, c: nat)
    ensures |ColMajor(r, c)| == r * c
    ensures forall p :: p in ColMajor(r, c) <==> InGrid(p, r, c)
    ensures forall k, l :: 0 <= k < l < |ColMajor(r, c)| ==> ColMajor(r, c)[k] != ColMajor(r, c)[l]
  {
    if c > 0 {
      ColMajorCells(r, c - 1);
      var a, b := ColMajor(r, c - 1), ColCells(c - 1, r);
      assert ColMajor(r, c) == a + b;
      assert r * c == r * (c - 1) + r;
      forall p ensures p in a + b <==> InGrid(p, r, c) {
        if InGrid(p, r, c) && p.col == c - 1 {
          assert b[p.row] == p;
        }
      }
      forall k, l | 0 <= k < l < |a + b| ensures (a + b)[k] != (a + b)[l] {
        if k < |a| && l >= |a| {
          assert (a + b)[k] in a;
        }
      }
    }
  }

  /** The frames `rowMajor` pushes for row `i`: its header, then a visit of each cell. */
  function RowLine(i: int, c: nat): (l: seq<Frame>)
    ensures |l| == c + 1 && l[0] == Frame(RowHead(i), [], [1])
    ensures forall k :: 1 <= k <= c ==> l[k] == Frame(Visit, [Cell(i, k - 1)], [2])
  {
    [Frame(RowHead(i), [], [1])] + seq(c, j requires 0 <= j < c => Frame(Visit, [Cell(i, j)], [2]))
  }

  /** The frames `colMajor` pushes for column `j`: its header, then a visit of each cell. */
  function ColLine(j: int, r: nat): (l: seq<Frame>)
    ensures |l| == r + 1 && l[0] == Frame(ColHead(j), [], [1])
    ensures forall k :: 1 <= k <= r ==> l[k] == Frame(Visit, [Cell(k - 1, j)], [2])
  {
    [Frame(ColHead(j), [], [1])] + seq(r, i requires 0 <= i < r => Frame(Visit, [Cell(i, j)], [2]))
  }

  /** The lines of the first `r` rows. */
  function RowLines(r: nat, c: nat): (ls: seq<seq<Frame>>)
    ensures |ls| == r && forall i :: 0 <= i < r ==> ls[i] == RowLine(i, c)
  {
    seq(r, i requires 0 <= i < r => RowLine(i, c))
  }

  /** The lines of the first `c` columns. */
  function ColLines(r: nat, c: nat): (ls: seq<seq<Frame>>)
    ensures |ls| == c && forall j :: 0 <= j < c ==> ls[j] == ColLine(j, r)
  {
    seq(c, j requires 0 <= j < c => ColLine(j, r))
  }

  /** The lines, one after another. */
  function Concat(ls: seq<seq<Frame>>): seq<Frame>
  {
    if ls == [] then [] else Concat(ls[..|ls| - 1]) + ls[|ls| - 1]
  }

  /** Lines of `w + 1` frames each make `w + 1` frames per line. */
  lemma {:induction false} ConcatLength(ls: seq<seq<Frame>>, w: nat)
    requires forall k :: 0 <= k < |ls| ==> |ls[k]| == w + 1
    ensures |Concat(ls)| == |ls| * (w + 1)
  {
    if ls != [] {
      ConcatLength(ls[..|ls| - 1], w);
      Stride(|ls| - 1, w);
    }
  }

  /** Frame `k` of line `i` sits at position `i * (w + 1) + k` of the concatenation. */
  lemma {:induction false} ConcatFrame(ls: seq<seq<Frame>>, w: nat, i: nat, k: nat)
    requires forall m :: 0 <= m < |ls| ==> |ls[m]| == w + 1
    requires i < |ls| && k <= w
    ensures i * (w + 1) + k < |Concat(ls)| && Concat(ls)[i * (w + 1) + k] == ls[i][k]
  {
    var n := |ls| - 1;
    var init := ls[..n];
    ConcatLength(init, w);
    Stride(n, w);
    if i < n {
      ConcatFrame(init, w, i, k);
      assert init[i] == ls[i];
      Stride(i, w);
      assert (i + 1) * (w + 1) <= n * (w + 1) by {
        MulMonotone(i + 1, n, w + 1);
      }
    }
  }

  lemma MulMonotone(a: nat, b: nat, m: nat)
    requires a <= b
    ensures a * m <= b * m
  {
  }

  /**
   * `rowMajor`: for each row a header frame, then one `Visit` frame per cell of that
   * row; block `i` of `c + 1` frames is row `i`'s line, and the visits follow
   * row-major order.
   */
  method RowMajorWalk(r: nat, c: nat) returns (t: seq<Frame>)
    ensures |t| == r * (c + 1)
    ensures t == Concat(RowLines(r, c))
    ensures Visited(t) == RowMajor(r, c)
  {
    t := [];
    for i := 0 to r
      invariant t == Concat(RowLines(i, c))
      invariant Visited(t) == RowMajor(i, c)
    {
      ghost var t0 := t;
      t := t + [Frame(RowHead(i), [], [1])];
      HeadStep(t0, t[|t0|], RowMajor(i, c));
      for j := 0 to c
        invariant t == t0 + RowLine(i, c)[..1 + j]
        invariant Visited(t) == RowMajor(i, c) + RowCells(i, j)
      {
        ghost var before := t;
        t := t + [Frame(Visit, [Cell(i, j)], [2])];
        PrefixSnoc(RowLine(i, c), 1 + j);
        RowVisitStep(before, RowMajor(i, c), i, j);
      }
      RowLinesSnoc(i, c);
    }
    ConcatLength(RowLines(r, c), c);
  }

  /** A prefix one frame longer is the shorter prefix and that frame. */
  lemma PrefixSnoc(l: seq<Frame>, n: nat)
    requires n < |l|
    ensures l[..n + 1] == l[..n] + [l[n]]
  {
  }

  /** The walk of one more row ends with that row's whole line. */
  lemma RowLinesSnoc(i: nat, c: nat)
    ensures Concat(RowLines(i + 1, c)) == Concat(RowLines(i, c)) + RowLine(i, c)[..1 + c]
  {
    assert RowLines(i + 1, c)[..i] == RowLines(i, c);
    assert RowLine(i, c)[..1 + c] == RowLine(i, c);
  }

  /** The walk of one more column ends with that column's whole line. */
  lemma ColLinesSnoc(r: nat, j: nat)
    ensures Concat(ColLines(r, j + 1)) == Concat(ColLines(r, j)) + ColLine(j, r)[..1 + r]
  {
    assert ColLines(r, j + 1)[..j] == ColLines(r, j);
    assert ColLine(j, r)[..1 + r] == ColLine(j, r);
  }

  /** A header frame adds no visit. */
  lemma {:induction false} HeadStep(t: seq<Frame>, f: Frame, done: seq<Cell>)
    requires Visited(t) == done && !f.msg.Visit?
    ensures Visited(t + [f]) == done
  {
    VisitedSnoc(t, f);
  }

  /** Visiting cell `(i, j)` extends the walk of row `i` by that cell. */
  lemma {:induction false} RowVisitStep(t: seq<Frame>, done: seq<Cell>, i: int, j: nat)
    requires Visited(t) == done + RowCells(i, j)
    ensures Visited(t + [Frame(Visit, [Cell(i, j)], [2])]) == done + RowCells(i, j + 1)
  {
    VisitedSnoc(t, Frame(Visit, [Cell(i, j)], [2]));
    assert RowCells(i, j + 1) == RowCells(i, j) + [Cell(i, j)];
  }

  /** Visiting cell `(i, j)` extends the walk of column `j` by that cell. */
  lemma {:induction false} ColVisitStep(t: seq<Frame>, done: seq<Cell>, i: nat, j: int)
    requires Visited(t) == done + ColCells(j, i)
    ensures Visited(t + [Frame(Visit, [Cell(i, j)], [2])]) == done + ColCells(j, i + 1)
  {
    VisitedSnoc(t, Frame(Visit, [Cell(i, j)], [2]));
    assert ColCells(j, i + 1) == ColCells(j, i) + [Cell(i, j)];
  }

  /** One more line of `n` cells and its header frame. */
  lemma Stride(k: nat, n: nat)
    ensures (k + 1) * (n + 1) == k * (n + 1) + 1 + n
  {
  }

  /**
   * `colMajor`: for each column a header frame, then one `Visit` frame per cell of that
   * column; block `j` of `r + 1` frames is column `j`'s line, and the visits follow
   * column-major order.
   */
  method ColMajorWalk(r: nat, c: nat) returns (t: seq<Frame>)
    ensures |t| == c * (r + 1)
    ensures t == Concat(ColLines(r, c))
    ensures Visited(t) == ColMajor(r, c)
  {
    t := [];
    for j := 0 to c
      invariant t == Concat(ColLines(r, j))
      invariant Visited(t) == ColMajor(r, j)
    {
      ghost var t0 := t;
      t := t + [Frame(ColHead(j), [], [1])];
      HeadStep(t0, t[|t0|], ColMajor(r, j));
      for i := 0 to r
        invariant t == t0 + ColLine(j, r)[..1 + i]
        invariant Visited(t) == ColMajor(r, j) + ColCells(j, i)
      {
        ghost var before := t;
        t := t + [Frame(Visit, [Cell(i, j)], [2])];
        PrefixSnoc(ColLine(j, r), 1 + i);
        ColVisitStep(before, ColMajor(r, j), i, j);
      }
      ColLinesSnoc(r, j);
    }
    ConcatLength(ColLines(r, c), r);
  }

  /**
   * Frame `k` of row `i` in the row-major walk: the header "Row i" at pc 1 for `k = 0`,
   * otherwise the visit of cell (i, k - 1) at pc 2.
   */
  lemma RowWalkFrame(r: nat, c: nat, i: nat, k: nat)
    requires i < r && k <= c
    ensures var t := Concat(RowLines(r, c));
      i * (c + 1) + k < |t| &&
      t[i * (c + 1) + k] == if k == 0 then Frame(RowHead(i), [], [1]) else Frame(Visit, [Cell(i, k - 1)], [2])
  {
    ConcatFrame(RowLines(r, c), c, i, k);
  }

  /**
   * Frame `k` of column `j` in the column-major walk: the header "Col j" at pc 1 for
   * `k = 0`, otherwise the visit of cell (k - 1, j) at pc 2.
   */
  lemma ColWalkFrame(r: nat, c: nat, j: nat, k: nat)
    requires j < c && k <= r
    ensures var t := Concat(ColLines(r, c));
      j * (r + 1) + k < |t| &&
      t[j * (r + 1) + k] == if k == 0 then Frame(ColHead(j), [], [1]) else Frame(Visit, [Cell(k - 1, j)], [2])
  {
    ConcatFrame(ColLines(r, c), r, j, k);
  }

  /** Both walks visit every cell of the grid exactly once, `r * c` visits in all. */
  lemma WalksVisitEveryCellOnce(r: nat, c: nat, rowWalk: seq<Frame>, colWalk: seq<Frame>)
    requires Visited(rowWalk) == RowMajor(r, c) && Visited(colWalk) == ColMajor(r, c)
    ensures |Visited(rowWalk)| == |Visited(colWalk)| == r * c
    ensures forall p :: p in Visited(rowWalk) <==> InGrid(p, r, c)
    ensures forall p :: p in Visited(colWalk) <==> InGrid(p, r, c)
    ensures Distinct(Visited(rowWalk)) && Distinct(Visited(colWalk))
  {
    RowMajorCells(r, c);
    ColMajorCells(r, c);
  }

  // ---------------------------------------------------------------------------
  // The visualiser's state
  // ---------------------------------------------------------------------------

  /** The letters A to L in three rows of four, as `onSeed` lays them out. */
  const Demo: Matrix := [["A", "B", "C", "D"], ["E", "F", "G", "H"], ["I", "J", "K", "L"]]

  /** An in-grid edit under way: the cell clicked and the text typed so far. */
  datatype Edit = Edit(at: Cell, val: string)

  class MatrixView {
    var rows: int
    var cols: int
    var mat: Matrix
    var editing: Option<Edit>

    /** The grid always has the shape its dimensions say, at least one cell each way. */
    ghost predicate Valid()
      reads this
    {
      rows >= 1 && cols >= 1 && Shaped(mat, rows, cols)
    }

    constructor()
      ensures Valid() && rows == 3 && cols == 4 && mat == MakeMatrix(3, 4, "") && editing == None
    {
      rows, cols := 3, 4;
      mat := MakeMatrix(3, 4, "");
      editing := None;
    }

    /**
     * `applySize`: rows clamped to [1, 10] and columns to [1, 12]; the overlapping
     * top-left block is copied over and every other cell is empty; an edit under way is
     * dropped.
     */
    method ApplySize(newR: int, newC: int)
      requires Valid()
      modifies this
      ensures Valid() && rows == Clamp(newR, 1, MaxRows) && cols == Clamp(newC, 1, MaxCols)
      ensures mat == Resized(old(mat), old(rows), old(cols), rows, cols) && editing == None
    {
      var r, c := Clamp(newR, 1, MaxRows), Clamp(newC, 1, MaxCols);
      var next := MakeMatrix(r, c, "");
      for i := 0 to Min(r, rows)
        invariant Shaped(next, r, c)
        invariant forall i', j :: 0 <= i' < r && 0 <= j < c ==>
          next[i'][j] == if i' < i && j < cols then mat[i'][j] else ""
      {
        for j := 0 to Min(c, cols)
          invariant Shaped(next, r, c)
          invariant forall i', j' :: 0 <= i' < r && 0 <= j' < c ==>
            next[i'][j'] == if (i' < i || (i' == i && j' < j)) && j' < cols then mat[i'][j'] else ""
        {
          next := next[i := next[i][j := mat[i][j]]];
        }
      }
      SameGrid(next, Resized(mat, rows, cols, r, c), r, c);
      rows, cols, mat := r, c, next;
      editing := None;
    }

    /** `onSeed`: the 3 by 4 grid of letters A to L; an edit under way is dropped. */
    method Seed()
      modifies this
      ensures Valid() && rows == 3 && cols == 4 && mat == Demo && editing == None
    {
      rows, cols := 3, 4;
      mat := Demo;
      editing := None;
    }

    /** `onClear`: every cell empty, same dimensions. */
    method Clear()
      requires Valid()
      modifies this
      ensures Valid() && rows == old(rows) && cols == old(cols) && mat == MakeMatrix(rows, cols, "")
      ensures editing == old(editing)
    {
      mat := MakeMatrix(rows, cols, "");
    }

    /**
     * `onSet`: the 1-based row and column inputs are clamped into the grid and that one
     * cell takes the value; every other cell is kept.
     */
    method Set(rInput: int, cInput: int, value: string)
      requires Valid()
      modifies this
      ensures Valid() && rows == old(rows) && cols == old(cols) && editing == old(editing)
      ensures var r0, c0 := Clamp(rInput - 1, 0, rows - 1), Clamp(cInput - 1, 0, cols - 1);
        mat[r0][c0] == value
        && forall i, j :: 0 <= i < rows && 0 <= j < cols && (i, j) != (r0, c0) ==> mat[i][j] == old(mat)[i][j]
    {
      var r0, c0 := Clamp(rInput - 1, 0, rows - 1), Clamp(cInput - 1, 0, cols - 1);
      mat := mat[r0 := mat[r0][c0 := value]];
    }

    /** `onSearch`: the row-major search of the current grid; the grid is untouched. */
    method Search(target: string) returns (t: seq<Frame>, found: Option<Cell>)
      requires Valid()
      ensures found.Some? ==> InGrid(found.value, rows, cols) && mat[found.value.row][found.value.col] == target
      ensures found.Some? ==> forall p :: InGrid(p, rows, cols) && Before(p, found.value) ==> mat[p.row][p.col] != target
      ensures found.None? ==> forall p :: InGrid(p, rows, cols) ==> mat[p.row][p.col] != target
      ensures found.Some? ==> t == Frames(RowMajor(found.value.row, cols) + RowCells(found.value.row, found.value.col + 1),
                                          CheckFrame(target)) + [Frame(FoundAt, [found.value], [3])]
      ensures found.None? ==> t == Frames(RowMajor(rows, cols), CheckFrame(target)) + [Frame(NotFound, [], [4])]
    {
      t, found := SearchGrid(mat, rows, cols, target);
    }

    /** `onTranspose`: the grid becomes its transpose, the dimensions swapped. */
    method Transpose() returns (t: seq<Frame>)
      requires Valid()
      modifies this
      ensures Valid() && rows == old(cols) && cols == old(rows)
      ensures mat == Transposed(old(mat), old(rows), old(cols)) && editing == old(editing)
      ensures t == Frames(RowMajor(old(rows), old(cols)), TransposeFrame)
    {
      var next;
      next, t := TransposeGrid(mat, rows, cols);
      rows, cols, mat := cols, rows, next;
    }

    /** `onRotate90`: the grid becomes its clockwise quarter turn, the dimensions swapped. */
    method Rotate90() returns (t: seq<Frame>)
      requires Valid()
      modifies this
      ensures Valid() && rows == old(cols) && cols == old(rows)
      ensures mat == Rotated(old(mat), old(rows), old(cols)) && editing == old(editing)
      ensures t == Frames(RowMajor(old(rows), old(cols)), RotateFrame(old(rows)))
    {
      var next;
      next, t := RotateGrid(mat, rows, cols);
      rows, cols, mat := cols, rows, next;
    }

    /** `onSpiral`: the cells the spiral visits; the grid is untouched. */
    method Spiral() returns (cells: seq<Cell>)
      requires Valid()
      ensures cells == SpiralOf(Rect(0, rows - 1, 0, cols - 1))
      ensures forall p :: InGrid(p, rows, cols) ==> p in cells
      ensures Distinct(cells) && |cells| == rows * cols
      ensures forall p <- cells :: InGrid(p, rows, cols)
    {
      cells := SpiralCells(rows, cols);
    }

    /**
     * `onGet`: the 1-based row and column inputs are clamped into the grid; the value of
     * that cell is reported and the one-frame trace highlights it.
     */
    function Get(rInput: int, cInput: int): (res: (string, seq<Frame>))
      requires Valid()
      reads this
      ensures var p := Cell(Clamp(rInput - 1, 0, rows - 1), Clamp(cInput - 1, 0, cols - 1));
        InGrid(p, rows, cols) && res.0 == mat[p.row][p.col] && res.1 == [Frame(IndexInto(p), [p], [1, 2])]
      ensures 1 <= rInput <= rows && 1 <= cInput <= cols ==> res.0 == mat[rInput - 1][cInput - 1]
    {
      var r0, c0 := Clamp(rInput - 1, 0, rows - 1), Clamp(cInput - 1, 0, cols - 1);
      (mat[r0][c0], [Frame(IndexInto(Cell(r0, c0)), [Cell(r0, c0)], [1, 2])])
    }

    /** `onFill`: every cell takes the value, in row-major order, one frame per cell. */
    method Fill(v: string) returns (t: seq<Frame>)
      requires Valid()
      modifies this
      ensures Valid() && rows == old(rows) && cols == old(cols) && editing == old(editing)
      ensures mat == MakeMatrix(rows, cols, v)
      ensures t == Frames(RowMajor(rows, cols), FillFrame)
    {
      var next;
      next, t := FillGrid(rows, cols, _ => v, FillFrame);
      SameGrid(next, MakeMatrix(rows, cols, v), rows, cols);
      mat := next;
    }

    /**
     * `onRandom`: every cell takes the decimal text of a number from 10 to 99, in
     * row-major order, one frame per cell. The numbers drawn are the parameter `draw`.
     */
    method RandomFill(draw: Cell -> nat) returns (t: seq<Frame>)
      requires Valid() && forall p :: InGrid(p, rows, cols) ==> 10 <= draw(p) <= 99
      modifies this
      ensures Valid() && rows == old(rows) && cols == old(cols) && editing == old(editing)
      ensures forall i, j :: 0 <= i < rows && 0 <= j < cols ==>
        mat[i][j] == Text.NatToString(draw(Cell(i, j))) && |mat[i][j]| == 2
      ensures t == Frames(RowMajor(rows, cols), RandFrame)
    {
      var next;
      next, t := FillGrid(rows, cols, p => Text.NatToString(draw(p)), RandFrame);
      forall i, j | 0 <= i < rows && 0 <= j < cols ensures |next[i][j]| == 2 {
        assert InGrid(Cell(i, j), rows, cols);
        Text.TwoDigits(draw(Cell(i, j)));
      }
      mat := next;
    }

    /** `startEdit`: a click on a cell opens an edit holding the cell's current value. */
    method StartEdit(r: int, c: int) returns (t: seq<Frame>)
      requires Valid() && InGrid(Cell(r, c), rows, cols)
      modifies this
      ensures Valid() && rows == old(rows) && cols == old(cols) && mat == old(mat)
      ensures editing == Some(Edit(Cell(r, c), mat[r][c]))
      ensures t == [Frame(Prepare, [Cell(r, c)], [1])]
    {
      editing := Some(Edit(Cell(r, c), mat[r][c]));
      t := [Frame(Prepare, [Cell(r, c)], [1])];
    }

    /** Typing into the open edit replaces the text it holds. */
    method EditValue(v: string)
      modifies this
      ensures rows == old(rows) && cols == old(cols) && mat == old(mat)
      ensures editing == if old(editing).Some? then Some(old(editing).value.(val := v)) else None
    {
      if editing.Some? {
        editing := Some(editing.value.(val := v));
      }
    }

    /**
     * `commitEdit`: without an open edit nothing happens; otherwise the edited cell takes
     * the text typed, every other cell is kept, and the edit is closed.
     */
    method CommitEdit() returns (t: Option<seq<Frame>>)
      requires Valid()
      modifies this
      ensures Valid() && rows == old(rows) && cols == old(cols) && editing == None
      ensures old(editing) == None ==> t == None && mat == old(mat)
      ensures old(editing).Some? && InGrid(old(editing).value.at, rows, cols) ==>
        var e := old(editing).value;
        && mat == old(mat)[e.at.row := old(mat)[e.at.row][e.at.col := e.val]]
        && t == Some([Frame(Assign(e.val), [e.at], [2, 3])])
    {
      t := None;
      if editing.Some? {
        var e := editing.value;
        if InGrid(e.at, rows, cols) {
          mat := mat[e.at.row := mat[e.at.row][e.at.col := e.val]];
          t := Some([Frame(Assign(e.val), [e.at], [2, 3])]);
        }
      }
      editing := None;
    }

    /** `cancelEdit`: the edit is closed and the grid kept. */
    method CancelEdit()
      modifies this
      ensures rows == old(rows) && cols == old(cols) && mat == old(mat) && editing == None
    {
      editing := None;
    }
  }

  /** Transposing the visualiser's grid twice gives back its grid and its dimensions. */
  method TransposeTwiceRestores(v: MatrixView) returns (t1: seq<Frame>, t2: seq<Frame>)
    requires v.Valid()
    modifies v
    ensures v.Valid() && v.rows == old(v.rows) && v.cols == old(v.cols) && v.mat == old(v.mat)
  {
    TransposeTwice(v.mat, v.rows, v.cols);
    t1 := v.Transpose();
    t2 := v.Transpose();
  }

  /** A value set through the inputs is the value a get through the same inputs reports. */
  method SetThenGet(v: MatrixView, rInput: int, cInput: int, value: string)
    requires v.Valid()
    modifies v
    ensures v.Valid() && v.Get(rInput, cInput).0 == value
  {
    v.Set(rInput, cInput, value);
  }

  /**
   * Editing a cell in place and typing a value has the effect of setting that cell
   * through the 1-based inputs: the cell takes the value, every other cell is kept.
   */
  method EditActsAsSet(v: MatrixView, r: int, c: int, value: string)
    requires v.Valid() && InGrid(Cell(r, c), v.rows, v.cols)
    modifies v
    ensures v.Valid() && v.rows == old(v.rows) && v.cols == old(v.cols) && v.editing == None
    ensures v.mat[r][c] == value
    ensures forall i, j :: 0 <= i < v.rows && 0 <= j < v.cols && (i, j) != (r, c) ==> v.mat[i][j] == old(v.mat)[i][j]
    ensures v.Get(r + 1, c + 1).0 == value
  {
    var t := v.StartEdit(r, c);
    v.EditValue(value);
    var u := v.CommitEdit();
  }
}
