/** The creator's board (WordsearchCreation.py): an N x N list of rows of
    one-character cells, where a blank `' '` marks a cell no word uses yet. */
module Board {
  type Board = seq<seq<char>>

  /** The character of an unused cell. */
  const Blank: char := ' '

  datatype Option<T> = None | Some(value: T)

  /** `b` has n rows of n cells each. */
  predicate IsSquare(b: Board, n: nat)
  {
    |b| == n && forall r :: 0 <= r < n ==> |b[r]| == n
  }

  /** Cell (r, c) exists and holds x. */
  predicate At(b: Board, r: int, c: int, x: char)
  {
    0 <= r < |b| && 0 <= c < |b[r]| && b[r][c] == x
  }

  /** No cell is blank. */
  predicate NoBlanks(b: Board)
  {
    forall r, c :: 0 <= r < |b| && 0 <= c < |b[r]| ==> b[r][c] != Blank
  }

  /** `b'` has the shape of `b` and keeps every letter of `b`: only blank
      cells may differ. */
  predicate Extends(b: Board, b': Board)
  {
    && |b'| == |b|
    && (forall r :: 0 <= r < |b| ==> |b'[r]| == |b[r]|)
    && (forall r, c :: 0 <= r < |b| && 0 <= c < |b[r]| && b[r][c] != Blank ==> b'[r][c] == b[r][c])
  }

  /** `generateBoard(n)`: n rows of n blanks. */
  function GenerateBoard(n: nat): (b: Board)
    ensures IsSquare(b, n)
    ensures forall r, c :: 0 <= r < n && 0 <= c < n ==> b[r][c] == Blank
    ensures forall b' :: IsSquare(b', n) ==> Extends(b, b')
  {
    seq(n, _ => seq(n, _ => Blank))
  }

  lemma ExtendsTransitive(b0: Board, b1: Board, b2: Board)
    requires Extends(b0, b1) && Extends(b1, b2)
    ensures Extends(b0, b2)
  {
    forall r, c | 0 <= r < |b0| && 0 <= c < |b0[r]| && b0[r][c] != Blank
      ensures b2[r][c] == b0[r][c]
    {
      assert b1[r][c] == b0[r][c];
    }
  }
}
