/** Enumeration of the 8x8 blocks of a sample plane.

    Both transform-domain schemes cut a plane of height h and width w into
    8x8 blocks named by their top-left corner (row, col). The Koch scheme
    (`_split_into_blocks`) keeps only the blocks that fit entirely inside
    the plane; the second scheme lists every corner whose coordinates are
    multiples of 8 below h and w, so its last row and column of blocks may
    be cut short by the plane's edge. Both list the corners row by row. */
module BlockGrid {
  import opened Arith

  datatype Origin = Origin(row: nat, col: nat)

  /** Corner of the n-th block of a grid with `cols` blocks per row. */
  function GridAt(n: nat, cols: nat): Origin
    requires cols > 0
  {
    Origin(8 * (n / cols), 8 * (n % cols))
  }

  /** All corners of a grid of `rows` x `cols` blocks, row-major. */
  function Grid(rows: nat, cols: nat): (g: seq<Origin>)
    ensures |g| == rows * cols
  {
    if cols == 0 then [] else seq(rows * cols, n requires 0 <= n < rows * cols => GridAt(n, cols))
  }

  /** `a` comes strictly before `b` in row-major order. */
  predicate RowMajorBefore(a: Origin, b: Origin) {
    a.row < b.row || (a.row == b.row && a.col < b.col)
  }

  /** The 8x8 windows at `a` and `b` share no sample. */
  predicate Disjoint(a: Origin, b: Origin) {
    a.row + 8 <= b.row || b.row + 8 <= a.row || a.col + 8 <= b.col || b.col + 8 <= a.col
  }

  lemma GridPoint(rows: nat, cols: nat, n: nat)
    requires n < rows * cols
    ensures cols > 0
    ensures Grid(rows, cols)[n] == GridAt(n, cols)
    ensures Grid(rows, cols)[n].row % 8 == 0 && Grid(rows, cols)[n].col % 8 == 0
    ensures Grid(rows, cols)[n].row + 8 <= 8 * rows
    ensures Grid(rows, cols)[n].col + 8 <= 8 * cols
  {
    QuotientBound(n, cols, rows);
  }

  lemma GridOrder(rows: nat, cols: nat, n: nat, m: nat)
    requires n < m < rows * cols
    ensures RowMajorBefore(Grid(rows, cols)[n], Grid(rows, cols)[m])
    ensures Disjoint(Grid(rows, cols)[n], Grid(rows, cols)[m])
  {
    GridPoint(rows, cols, n);
    GridPoint(rows, cols, m);
    DivMonotone(n, m, cols);
    if n / cols == m / cols {
      assert n == n / cols * cols + n % cols;
      assert m == m / cols * cols + m % cols;
    }
  }

  /** Every aligned corner inside the grid is listed, at a known index. */
  lemma GridComplete(rows: nat, cols: nat, i: nat, j: nat) returns (n: nat)
    requires i % 8 == 0 && j % 8 == 0
    requires i < 8 * rows && j < 8 * cols
    ensures n == (i / 8) * cols + j / 8
    ensures n < rows * cols
    ensures Grid(rows, cols)[n] == Origin(i, j)
  {
    n := (i / 8) * cols + j / 8;
    DivModOfSum(i / 8, cols, j / 8);
    MulMonotone(i / 8 + 1, rows, cols);
  }

  /** `_split_into_blocks` (lab03final): the corners of the blocks that fit
      entirely inside an h x w plane. */
  function FullBlockOrigins(h: nat, w: nat): (g: seq<Origin>)
    ensures |g| == (h / 8) * (w / 8)
  {
    Grid(h / 8, w / 8)
  }

  /** The block list of the Koch scheme: (h div 8) * (w div 8) corners, each
      aligned to 8 with its whole window inside the plane, in strictly
      increasing row-major order (so pairwise disjoint), and every such
      corner is listed. */
  lemma FullBlockOriginsSpec(h: nat, w: nat)
    ensures |FullBlockOrigins(h, w)| == (h / 8) * (w / 8)
    ensures forall n :: 0 <= n < |FullBlockOrigins(h, w)| ==>
              var o := FullBlockOrigins(h, w)[n];
              o.row % 8 == 0 && o.col % 8 == 0 && o.row + 8 <= h && o.col + 8 <= w
    ensures forall n, m :: 0 <= n < m < |FullBlockOrigins(h, w)| ==>
              RowMajorBefore(FullBlockOrigins(h, w)[n], FullBlockOrigins(h, w)[m])
              && Disjoint(FullBlockOrigins(h, w)[n], FullBlockOrigins(h, w)[m])
    ensures forall i: nat, j: nat :: i % 8 == 0 && j % 8 == 0 && i + 8 <= h && j + 8 <= w ==>
              Origin(i, j) in FullBlockOrigins(h, w)
  {
    var g := FullBlockOrigins(h, w);
    forall n | 0 <= n < |g|
      ensures g[n].row % 8 == 0 && g[n].col % 8 == 0 && g[n].row + 8 <= h && g[n].col + 8 <= w {
      GridPoint(h / 8, w / 8, n);
    }
    forall n, m | 0 <= n < m < |g|
      ensures RowMajorBefore(g[n], g[m]) && Disjoint(g[n], g[m]) {
      GridOrder(h / 8, w / 8, n, m);
    }
    forall i: nat, j: nat | i % 8 == 0 && j % 8 == 0 && i + 8 <= h && j + 8 <= w
      ensures Origin(i, j) in g {
      var n := GridComplete(h / 8, w / 8, i, j);
    }
  }

  /** The nested loops of `_split_into_blocks`:
      `for i in range(0, h - 7, 8): for j in range(0, w - 7, 8)`. */
  method SplitIntoBlocks(h: nat, w: nat) returns (positions: seq<Origin>)
    ensures positions == FullBlockOrigins(h, w)
  {
    var rows, cols := h / 8, w / 8;
    var g := FullBlockOrigins(h, w);
    positions := [];
    var i := 0;
    ghost var r := 0;
    while i < h - 7
      invariant i == 8 * r && r <= rows
      invariant |positions| == r * cols
      invariant positions <= g
    {
      var j := 0;
      ghost var c := 0;
      while j < w - 7
        invariant j == 8 * c && c <= cols
        invariant |positions| == r * cols + c
        invariant positions <= g
      {
        AppendCorner(h, w, r, c, positions);
        positions := positions + [Origin(i, j)];
        j, c := j + 8, c + 1;
      }
      assert (r + 1) * cols == r * cols + cols;
      i, r := i + 8, r + 1;
    }
  }

  /** One step of the inner loop appends exactly the next corner of the
      grid. */
  lemma AppendCorner(h: nat, w: nat, r: nat, c: nat, positions: seq<Origin>)
    requires 8 * r + 8 <= h && 8 * c + 8 <= w
    requires |positions| == r * (w / 8) + c
    requires positions <= FullBlockOrigins(h, w)
    ensures positions + [Origin(8 * r, 8 * c)] <= FullBlockOrigins(h, w)
  {
    var rows, cols := h / 8, w / 8;
    var g := Grid(rows, cols);
    assert r < rows && c < cols;
    var n := GridComplete(rows, cols, 8 * r, 8 * c);
    assert positions == g[..n];
    assert g[..n + 1] == g[..n] + [g[n]];
  }

  /** The corner list of the second scheme (lab03secret):
      `[(i, j) for i in range(0, h, 8) for j in range(0, w, 8)]`. */
  function AlignedOrigins(h: nat, w: nat): (g: seq<Origin>)
    ensures |g| == ((h + 7) / 8) * ((w + 7) / 8)
  {
    Grid((h + 7) / 8, (w + 7) / 8)
  }

  /** That list holds every corner aligned to 8 inside the plane, once, in
      strictly increasing row-major order; a window may run past the edge. */
  lemma AlignedOriginsSpec(h: nat, w: nat)
    ensures |AlignedOrigins(h, w)| == ((h + 7) / 8) * ((w + 7) / 8)
    ensures forall n :: 0 <= n < |AlignedOrigins(h, w)| ==>
              var o := AlignedOrigins(h, w)[n];
              o.row % 8 == 0 && o.col % 8 == 0 && o.row < h && o.col < w
    ensures forall n, m :: 0 <= n < m < |AlignedOrigins(h, w)| ==>
              RowMajorBefore(AlignedOrigins(h, w)[n], AlignedOrigins(h, w)[m])
              && Disjoint(AlignedOrigins(h, w)[n], AlignedOrigins(h, w)[m])
    ensures forall i: nat, j: nat :: i % 8 == 0 && j % 8 == 0 && i < h && j < w ==>
              Origin(i, j) in AlignedOrigins(h, w)
  {
    var g := AlignedOrigins(h, w);
    forall n | 0 <= n < |g|
      ensures g[n].row % 8 == 0 && g[n].col % 8 == 0 && g[n].row < h && g[n].col < w {
      GridPoint((h + 7) / 8, (w + 7) / 8, n);
    }
    forall n, m | 0 <= n < m < |g|
      ensures RowMajorBefore(g[n], g[m]) && Disjoint(g[n], g[m]) {
      GridOrder((h + 7) / 8, (w + 7) / 8, n, m);
    }
    forall i: nat, j: nat | i % 8 == 0 && j % 8 == 0 && i < h && j < w
      ensures Origin(i, j) in g {
      var n := GridComplete((h + 7) / 8, (w + 7) / 8, i, j);
    }
  }

  /** No entry is listed twice (corner lists, block lists, visit orders). */
  predicate Distinct<T(==)>(s: seq<T>) {
    forall n, m :: 0 <= n < m < |s| ==> s[n] != s[m]
  }

  lemma GridDistinct(rows: nat, cols: nat)
    ensures Distinct(Grid(rows, cols))
  {
    forall n, m | 0 <= n < m < rows * cols
      ensures Grid(rows, cols)[n] != Grid(rows, cols)[m] {
      GridOrder(rows, cols, n, m);
    }
  }
}
