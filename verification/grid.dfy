/** The solver's view of a finished word search: a flat, row-major string of
    N*N letters, its rows and columns, and the straight runs a word can occupy. */
module Grid {
  import opened Arith
  import opened PySlice

  /** How many leading characters of a word the substring index keys on. */
  const HashLength: nat := 6

  /** A start cell in the flat grid and the distance between consecutive
      characters of a run: 1 for a rightward run, N for a downward one. */
  datatype Location = Location(index: int, offset: int)

  /** The rows, read as `g[r*N:(r+1)*N]`. */
  function Rows(g: string, n: nat): seq<string>
    requires |g| == n * n
  {
    seq(n, r requires 0 <= r < n => Slice(g, r * n, (r + 1) * n, 1))
  }

  /** The columns, read as `g[c::N]`. */
  function Columns(g: string, n: nat): seq<string>
    requires |g| == n * n
  {
    seq(n, c requires 0 <= c < n => Slice(g, c, |g|, n))
  }

  /** `s` is spelled rightward from flat index `i` without leaving i's row. */
  predicate RightRunAt(g: string, n: nat, i: int, s: string)
  {
    && 0 < n
    && 0 <= i < |g|
    && i % n + |s| <= n
    && forall k :: 0 <= k < |s| ==> i + k < |g| && g[i + k] == s[k]
  }

  /** `s` is spelled downward from flat index `i` without leaving the grid. */
  predicate DownRunAt(g: string, n: nat, i: int, s: string)
  {
    && 0 < n
    && 0 <= i < |g|
    && i / n + |s| <= n
    && forall k :: 0 <= k < |s| ==> i + k * n < |g| && g[i + k * n] == s[k]
  }

  /** Row and column of a flat index. */
  lemma CellOfIndex(i: int, n: nat)
    requires 0 <= i < n * n
    ensures 0 < n
    ensures 0 <= i / n < n && 0 <= i % n < n
    ensures i == (i / n) * n + i % n
  {
    if i / n >= n {
      MulLe(n, i / n, n);
    }
  }

  /** The flat index of row r, column c. */
  lemma IndexOfCell(r: int, c: int, n: nat)
    requires 0 <= r < n && 0 <= c < n
    ensures 0 <= r * n + c < n * n
    ensures (r * n + c) / n == r && (r * n + c) % n == c
  {
    MulLe(r + 1, n, n);
    StepShift(r, n);
    MulLe(0, r, n);
    var i := r * n + c;
    CellOfIndex(i, n);
    var q := i / n;
    if q > r {
      MulLe(r + 1, q, n);
    } else if q < r {
      MulLe(q + 1, r, n);
      StepShift(q, n);
    }
  }

  /** A run of `len` cells stepping by N from row `i / N` stays inside the grid
      exactly when it ends on or before the last row. */
  lemma DownSpan(i: int, n: nat, len: nat)
    requires 0 <= i < n * n && 0 < len
    ensures i + (len - 1) * n < n * n <==> i / n + len <= n
  {
    CellOfIndex(i, n);
    var r, c := i / n, i % n;
    assert i + (len - 1) * n == (r + len - 1) * n + c;
    if r + len <= n {
      MulLe(r + len, n, n);
      StepShift(r + len - 1, n);
    } else {
      MulLe(n, r + len - 1, n);
    }
  }

  /** The letter in row r, column c of the flat grid: `g[r*N + c]`. */
  function Cell(g: string, n: nat, r: int, c: int): char
    requires |g| == n * n && 0 <= r < n && 0 <= c < n
  {
    IndexOfCell(r, c, n);
    g[r * n + c]
  }

  /** Row r of the row view holds the N cells r*N .. r*N + N - 1. */
  lemma RowCells(g: string, n: nat, r: int)
    requires |g| == n * n && 0 <= r < n
    ensures |Rows(g, n)[r]| == n
    ensures forall c :: 0 <= c < n ==> Rows(g, n)[r][c] == Cell(g, n, r, c)
  {
    IndexOfCell(r, n - 1, n);
    StepShift(r, n);
    var row := Slice(g, r * n, (r + 1) * n, 1);
    SliceExact(g, r * n, (r + 1) * n, 1, n);
    forall c | 0 <= c < n
      ensures row[c] == Cell(g, n, r, c)
    {
      assert c * 1 == c;
    }
  }

  /** Column c of the column view holds the N cells c, c + N, c + 2N, ... */
  lemma ColumnCells(g: string, n: nat, c: int)
    requires |g| == n * n && 0 <= c < n
    ensures |Columns(g, n)[c]| == n
    ensures forall r :: 0 <= r < n ==> Columns(g, n)[c][r] == Cell(g, n, r, c)
  {
    IndexOfCell(n - 1, c, n);
    StepShift(n - 1, n);
    var col := Slice(g, c, |g|, n);
    SliceExact(g, c, |g|, n, n);
    forall r | 0 <= r < n
      ensures col[r] == Cell(g, n, r, c)
    {
      assert c + r * n == r * n + c;
    }
  }

  /** Every cell is at the same place in its row and in its column: the
      column view is the transpose of the row view, and both read the flat
      grid at `r*N + c`. */
  lemma RowsColumnsTranspose(g: string, n: nat)
    requires |g| == n * n
    ensures |Rows(g, n)| == n && |Columns(g, n)| == n
    ensures forall r :: 0 <= r < n ==> |Rows(g, n)[r]| == n && |Columns(g, n)[r]| == n
    ensures forall r, c :: 0 <= r < n && 0 <= c < n ==>
              Rows(g, n)[r][c] == Cell(g, n, r, c) && Columns(g, n)[c][r] == Cell(g, n, r, c)
  {
    forall r | 0 <= r < n
      ensures |Rows(g, n)[r]| == n && |Columns(g, n)[r]| == n
      ensures forall c :: 0 <= c < n ==> Rows(g, n)[r][c] == Cell(g, n, r, c) && Columns(g, n)[r][c] == Cell(g, n, c, r)
    {
      RowCells(g, n, r);
      ColumnCells(g, n, r);
    }
  }
}
