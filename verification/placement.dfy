/** Writing one word onto the board (WordsearchCreation.py `placeDown`,
    `placeRight`) and taking it back off again (their `undo` closures). */
module Placement {
  import opened Board

  /** Row and column of letter k of a word placed at (i, j), rightward along
      row i or downward along column j. */
  function RowOf(i: int, isRight: bool, k: int): int
  {
    if isRight then i else i + k
  }

  function ColOf(j: int, isRight: bool, k: int): int
  {
    if isRight then j + k else j
  }

  /** Cell (r, c) is one of the `len` cells a word placed at (i, j) covers. */
  predicate Covers(i: int, j: int, isRight: bool, len: nat, r: int, c: int)
  {
    if isRight then r == i && j <= c < j + len else c == j && i <= r < i + len
  }

  /** The length check of the source: the word does not run off the board. */
  predicate InBounds(n: nat, i: int, j: int, isRight: bool, len: nat)
  {
    0 <= i < n && 0 <= j < n && (if isRight then j <= n - len else i <= n - len)
  }

  /** A cell can take letter x when it is blank or already holds x. */
  predicate Free(cell: char, x: char)
  {
    cell == Blank || cell == x
  }

  /** The placement succeeds: the word fits on the board and every cell it
      covers is blank or already holds the word's letter. */
  predicate CanPlace(b: Board, w: string, i: int, j: int, isRight: bool)
    requires IsSquare(b, |b|)
  {
    && InBounds(|b|, i, j, isRight, |w|)
    && forall k :: 0 <= k < |w| ==> Free(b[RowOf(i, isRight, k)][ColOf(j, isRight, k)], w[k])
  }

  /** The board spells w from (i, j) in the given direction. */
  predicate Spells(b: Board, w: string, i: int, j: int, isRight: bool)
  {
    forall k :: 0 <= k < |w| ==> At(b, RowOf(i, isRight, k), ColOf(j, isRight, k), w[k])
  }

  /** `b'` has the shape of `b` and agrees with it outside the `len` cells
      covered from (i, j). */
  predicate SameOutside(b: Board, b': Board, i: int, j: int, isRight: bool, len: nat)
  {
    && |b'| == |b|
    && (forall r :: 0 <= r < |b| ==> |b'[r]| == |b[r]|)
    && (forall r, c :: 0 <= r < |b| && 0 <= c < |b[r]| && !Covers(i, j, isRight, len, r, c) ==> b'[r][c] == b[r][c])
  }

  /** `b` with the cells covered from (i, j) overwritten by s. */
  function Write(b: Board, i: int, j: int, isRight: bool, s: string): Board
  {
    seq(|b|, r requires 0 <= r < |b| => seq(|b[r]|, c requires 0 <= c < |b[r]| =>
      if Covers(i, j, isRight, |s|, r, c) then s[if isRight then c - j else r - i] else b[r][c]))
  }

  /** Writing s over cells that exist leaves the shape alone, spells s, and
      changes nothing else. */
  lemma WriteEffect(b: Board, i: int, j: int, isRight: bool, s: string)
    requires IsSquare(b, |b|) && InBounds(|b|, i, j, isRight, |s|)
    ensures IsSquare(Write(b, i, j, isRight, s), |b|)
    ensures Spells(Write(b, i, j, isRight, s), s, i, j, isRight)
    ensures SameOutside(b, Write(b, i, j, isRight, s), i, j, isRight, |s|)
  {
    var b' := Write(b, i, j, isRight, s);
    forall k | 0 <= k < |s|
      ensures At(b', RowOf(i, isRight, k), ColOf(j, isRight, k), s[k])
    {
      assert Covers(i, j, isRight, |s|, RowOf(i, isRight, k), ColOf(j, isRight, k));
    }
  }

  /** A board is determined by the word it spells over the covered cells and
      by the board it agrees with elsewhere. */
  lemma WriteUnique(b: Board, b': Board, i: int, j: int, isRight: bool, s: string)
    requires IsSquare(b, |b|) && InBounds(|b|, i, j, isRight, |s|)
    requires Spells(b', s, i, j, isRight) && SameOutside(b, b', i, j, isRight, |s|)
    ensures b' == Write(b, i, j, isRight, s)
  {
    var w := Write(b, i, j, isRight, s);
    assert |w| == |b|;
    forall r | 0 <= r < |b|
      ensures b'[r] == w[r]
    {
      forall c | 0 <= c < |b[r]|
        ensures b'[r][c] == w[r][c]
      {
        if Covers(i, j, isRight, |s|, r, c) {
          var k := if isRight then c - j else r - i;
          assert At(b', RowOf(i, isRight, k), ColOf(j, isRight, k), s[k]);
        }
      }
    }
  }

  /** Writing over the same cells twice keeps only the second write. */
  lemma WriteTwice(b: Board, i: int, j: int, isRight: bool, s: string, t: string)
    requires |s| == |t|
    ensures Write(Write(b, i, j, isRight, s), i, j, isRight, t) == Write(b, i, j, isRight, t)
  {
    var once, twice := Write(b, i, j, isRight, t), Write(Write(b, i, j, isRight, s), i, j, isRight, t);
    assert |twice| == |once|;
    forall r | 0 <= r < |b|
      ensures twice[r] == once[r]
    {
      assert |twice[r]| == |once[r]|;
    }
  }

  /** Writing s leaves the board as it was exactly when s is what the covered
      cells already hold. */
  lemma WriteUnchanged(b: Board, i: int, j: int, isRight: bool, s: string)
    requires IsSquare(b, |b|) && InBounds(|b|, i, j, isRight, |s|)
    ensures Write(b, i, j, isRight, s) == b <==>
              forall k :: 0 <= k < |s| ==> s[k] == b[RowOf(i, isRight, k)][ColOf(j, isRight, k)]
  {
    WriteEffect(b, i, j, isRight, s);
    if forall k :: 0 <= k < |s| ==> s[k] == b[RowOf(i, isRight, k)][ColOf(j, isRight, k)] {
      WriteUnique(b, b, i, j, isRight, s);
    }
  }

  /** What the undo closure needs: where the word went and the string it
      writes back over the covered cells. */
  datatype Undo = Undo(i: int, j: int, isRight: bool, replaced: string)

  /** A successful placement: the new board and its undo. */
  datatype Placed = Placed(board: Board, undo: Undo)

  /** Which cells the undo string is read from. `AsWritten` reads
      `board[i][i+k]` for `placeDown` (line 34) and `board[i][k]` for
      `placeRight` (line 60); `CoveredCells` reads the cells the word
      covers, `board[i+k][j]` and `board[i][j+k]`. */
  datatype SnapshotRule = AsWritten | CoveredCells

  /** The undo string recorded for a placement that passed its checks. */
  function Snapshot(b: Board, w: string, i: int, j: int, isRight: bool, rule: SnapshotRule): (s: string)
    requires IsSquare(b, |b|) && InBounds(|b|, i, j, isRight, |w|)
    ensures |s| == |w|
  {
    seq(|w|, k requires 0 <= k < |w| =>
      match rule
      case AsWritten => if isRight then b[i][k] else b[i][i + k]
      case CoveredCells => b[RowOf(i, isRight, k)][ColOf(j, isRight, k)])
  }

  /** Running the undo closure: the snapshot string goes back over the cells
      the word covered, and nothing else changes. */
  function ApplyUndo(b: Board, u: Undo): (b': Board)
    requires IsSquare(b, |b|) && InBounds(|b|, u.i, u.j, u.isRight, |u.replaced|)
    ensures IsSquare(b', |b|)
    ensures Spells(b', u.replaced, u.i, u.j, u.isRight)
    ensures SameOutside(b, b', u.i, u.j, u.isRight, |u.replaced|)
  {
    WriteEffect(b, u.i, u.j, u.isRight, u.replaced);
    Write(b, u.i, u.j, u.isRight, u.replaced)
  }

  /** `placeDown` (isRight false) or `placeRight` (isRight true) as a value:
      None where the source raises ValueError; otherwise the board with the
      word written in and the undo record. */
  function Place(b: Board, w: string, i: int, j: int, isRight: bool, rule: SnapshotRule): (r: Option<Placed>)
    requires IsSquare(b, |b|) && 0 <= i < |b| && 0 <= j < |b|
    ensures r.Some? <==> CanPlace(b, w, i, j, isRight)
    ensures r.Some? ==> && IsSquare(r.value.board, |b|)
                        && Spells(r.value.board, w, i, j, isRight)
                        && SameOutside(b, r.value.board, i, j, isRight, |w|)
                        && Extends(b, r.value.board)
    ensures r.Some? ==> r.value.undo.i == i && r.value.undo.j == j && r.value.undo.isRight == isRight
                        && |r.value.undo.replaced| == |w|
                        && InBounds(|b|, i, j, isRight, |r.value.undo.replaced|)
  {
    if !CanPlace(b, w, i, j, isRight) then None
    else
      PlaceEffect(b, w, i, j, isRight);
      Some(Placed(Write(b, i, j, isRight, w), Undo(i, j, isRight, Snapshot(b, w, i, j, isRight, rule))))
  }

  /** A placement that passes its checks overwrites only blanks and cells that
      already hold the same letter, so it keeps every letter of the board. */
  lemma PlaceEffect(b: Board, w: string, i: int, j: int, isRight: bool)
    requires IsSquare(b, |b|) && CanPlace(b, w, i, j, isRight)
    ensures IsSquare(Write(b, i, j, isRight, w), |b|)
    ensures Spells(Write(b, i, j, isRight, w), w, i, j, isRight)
    ensures SameOutside(b, Write(b, i, j, isRight, w), i, j, isRight, |w|)
    ensures Extends(b, Write(b, i, j, isRight, w))
  {
    var b' := Write(b, i, j, isRight, w);
    WriteEffect(b, i, j, isRight, w);
    forall r, c | 0 <= r < |b| && 0 <= c < |b[r]| && b[r][c] != Blank
      ensures b'[r][c] == b[r][c]
    {
      if Covers(i, j, isRight, |w|, r, c) {
        var k := if isRight then c - j else r - i;
        assert Free(b[RowOf(i, isRight, k)][ColOf(j, isRight, k)], w[k]);
      }
    }
  }

  /** Idempotence: placing a word where the board already spells it
      succeeds and leaves the board as it was. */
  lemma PlaceIdempotent(b: Board, w: string, i: int, j: int, isRight: bool, rule: SnapshotRule)
    requires IsSquare(b, |b|) && 0 <= i < |b| && 0 <= j < |b|
    requires Spells(b, w, i, j, isRight)
    ensures Place(b, w, i, j, isRight, rule).Some?
    ensures Place(b, w, i, j, isRight, rule).value.board == b
  {
    if |w| > 0 {
      assert At(b, RowOf(i, isRight, |w| - 1), ColOf(j, isRight, |w| - 1), w[|w| - 1]);
    }
    forall k | 0 <= k < |w|
      ensures Free(b[RowOf(i, isRight, k)][ColOf(j, isRight, k)], w[k])
    {
      assert At(b, RowOf(i, isRight, k), ColOf(j, isRight, k), w[k]);
    }
    assert CanPlace(b, w, i, j, isRight);
    WriteUnchanged(b, i, j, isRight, w);
    forall k | 0 <= k < |w|
      ensures w[k] == b[RowOf(i, isRight, k)][ColOf(j, isRight, k)]
    {
      assert At(b, RowOf(i, isRight, k), ColOf(j, isRight, k), w[k]);
    }
  }

  /** Undoing a successful placement restores the board exactly when the
      snapshot string equals what the covered cells held before. */
  lemma UndoRestoresIff(b: Board, w: string, i: int, j: int, isRight: bool, rule: SnapshotRule)
    requires IsSquare(b, |b|) && 0 <= i < |b| && 0 <= j < |b|
    requires Place(b, w, i, j, isRight, rule).Some?
    ensures
      var p := Place(b, w, i, j, isRight, rule).value;
      ApplyUndo(p.board, p.undo) == b <==>
        forall k :: 0 <= k < |w| ==> p.undo.replaced[k] == b[RowOf(i, isRight, k)][ColOf(j, isRight, k)]
  {
    var p := Place(b, w, i, j, isRight, rule).value;
    WriteTwice(b, i, j, isRight, w, p.undo.replaced);
    WriteUnchanged(b, i, j, isRight, p.undo.replaced);
  }

  /** The as-written undo of `placeRight` restores the board exactly when
      `board[i][k] == board[i][j+k]` for every k < |w|: the cells it read
      agree with the cells it writes back to. */
  lemma RightUndoRestoresIff(b: Board, w: string, i: int, j: int)
    requires IsSquare(b, |b|) && 0 <= i < |b| && 0 <= j < |b|
    requires Place(b, w, i, j, true, AsWritten).Some?
    ensures
      var p := Place(b, w, i, j, true, AsWritten).value;
      ApplyUndo(p.board, p.undo) == b <==> forall k :: 0 <= k < |w| ==> b[i][k] == b[i][j + k]
  {
    UndoRestoresIff(b, w, i, j, true, AsWritten);
  }

  /** The as-written undo of `placeDown` restores the board exactly when
      `board[i][r] == board[r][j]` for every row r the word covers. */
  lemma DownUndoRestoresIff(b: Board, w: string, i: int, j: int)
    requires IsSquare(b, |b|) && 0 <= i < |b| && 0 <= j < |b|
    requires Place(b, w, i, j, false, AsWritten).Some?
    ensures
      var p := Place(b, w, i, j, false, AsWritten).value;
      ApplyUndo(p.board, p.undo) == b <==> forall r :: i <= r < i + |w| ==> b[i][r] == b[r][j]
  {
    UndoRestoresIff(b, w, i, j, false, AsWritten);
    var p := Place(b, w, i, j, false, AsWritten).value;
    forall r | i <= r < i + |w|
      ensures p.undo.replaced[r - i] == b[i][r]
      ensures b[RowOf(i, false, r - i)][ColOf(j, false, r - i)] == b[r][j]
    {
    }
  }

  /** `placeRight` at column 0 reads the very cells it covers, so its undo
      is a true inverse. */
  lemma RightUndoAtColumnZero(b: Board, w: string, i: int)
    requires IsSquare(b, |b|) && 0 <= i < |b| && 0 < |b|
    requires Place(b, w, i, 0, true, AsWritten).Some?
    ensures
      var p := Place(b, w, i, 0, true, AsWritten).value;
      ApplyUndo(p.board, p.undo) == b
  {
    RightUndoRestoresIff(b, w, i, 0);
  }

  /** Reading the covered cells makes every undo a true inverse. */
  lemma CoveredUndoRestores(b: Board, w: string, i: int, j: int, isRight: bool)
    requires IsSquare(b, |b|) && 0 <= i < |b| && 0 <= j < |b|
    requires Place(b, w, i, j, isRight, CoveredCells).Some?
    ensures
      var p := Place(b, w, i, j, isRight, CoveredCells).value;
      ApplyUndo(p.board, p.undo) == b
  {
    UndoRestoresIff(b, w, i, j, isRight, CoveredCells);
  }

  /** The 2 x 2 board with 'a' in its top-left cell. */
  function CornerBoard(): Board
  {
    [['a', Blank], [Blank, Blank]]
  }

  /** Placing "z" at (0, 1), downward or rightward, and undoing it leaves
      'a' in cell (0, 1), which was blank. */
  lemma UndoCorrupts()
    ensures Place(CornerBoard(), "z", 0, 1, false, AsWritten).Some?
    ensures Place(CornerBoard(), "z", 0, 1, true, AsWritten).Some?
    ensures
      var p := Place(CornerBoard(), "z", 0, 1, false, AsWritten).value;
      var q := Place(CornerBoard(), "z", 0, 1, true, AsWritten).value;
      && ApplyUndo(p.board, p.undo)[0][1] == 'a'
      && ApplyUndo(q.board, q.undo)[0][1] == 'a'
      && CornerBoard()[0][1] == Blank
  {
    var b := CornerBoard();
    assert CanPlace(b, "z", 0, 1, false) && CanPlace(b, "z", 0, 1, true);
    var p := Place(b, "z", 0, 1, false, AsWritten).value;
    var q := Place(b, "z", 0, 1, true, AsWritten).value;
    assert p.undo.replaced == "a" && q.undo.replaced == "a";
    assert Spells(ApplyUndo(p.board, p.undo), "a", 0, 1, false);
    assert Spells(ApplyUndo(q.board, q.undo), "a", 0, 1, true);
  }

  // ---------------------------------------------------------------------
  // The loops of the source

  /** `placeDown(word, i, j, board)`: the length check, then one loop that
      checks each covered cell and records the undo string, then one loop
      that writes the word. On a rejection nothing has been written. */
  method PlaceDown(w: string, i: int, j: int, b: Board) returns (undo: Option<Undo>, after: Board)
    requires IsSquare(b, |b|) && 0 <= i < |b| && 0 <= j < |b|
    ensures undo.Some? <==> CanPlace(b, w, i, j, false)
    ensures undo.None? ==> after == b
    ensures undo.Some? ==> && Place(b, w, i, j, false, AsWritten) == Some(Placed(after, undo.value))
                           && Spells(after, w, i, j, false)
                           && SameOutside(b, after, i, j, false, |w|)
  {
    if i > |b| - |w| {
      return None, b;
    }
    var ok, replaced := CheckDown(w, i, j, b);
    if !ok {
      return None, b;
    }
    after := WriteDown(w, i, j, b);
    undo := Some(Undo(i, j, false, replaced));
    LoopsPlace(b, w, i, j, false, after, replaced);
  }

  /** The checking loop of `placeDown` (lines 30-34): every covered cell is
      blank or already holds the word's letter; the undo string is read from
      `board[i][i+k]`. */
  method CheckDown(w: string, i: int, j: int, b: Board) returns (ok: bool, replaced: string)
    requires IsSquare(b, |b|) && 0 <= i < |b| && 0 <= j < |b| && i + |w| <= |b|
    ensures ok <==> CanPlace(b, w, i, j, false)
    ensures ok ==> replaced == Snapshot(b, w, i, j, false, AsWritten)
  {
    replaced := "";
    var p := i;
    while p < i + |w|
      invariant i <= p <= i + |w|
      invariant |replaced| == p - i
      invariant forall k :: 0 <= k < p - i ==> Free(b[i + k][j], w[k]) && replaced[k] == b[i][i + k]
    {
      if b[p][j] != Blank && b[p][j] != w[p - i] {
        assert !Free(b[RowOf(i, false, p - i)][ColOf(j, false, p - i)], w[p - i]);
        return false, replaced;
      }
      replaced := replaced + [b[i][p]];
      p := p + 1;
    }
    assert CanPlace(b, w, i, j, false);
    assert replaced == Snapshot(b, w, i, j, false, AsWritten);
    ok := true;
  }

  /** The writing loop of `placeDown` (lines 36-37). */
  method WriteDown(w: string, i: int, j: int, b: Board) returns (after: Board)
    requires IsSquare(b, |b|) && 0 <= i && 0 <= j < |b| && i + |w| <= |b|
    ensures after == Write(b, i, j, false, w)
  {
    after := b;
    WriteNothing(b, i, j, false);
    var p := i;
    while p < i + |w|
      invariant i <= p <= i + |w|
      invariant after == Write(b, i, j, false, w[..p - i])
    {
      WriteDownStep(b, i, j, w, p - i);
      after := after[p := after[p][j := w[p - i]]];
      p := p + 1;
    }
    assert w[..|w|] == w;
  }

  /** `placeRight(word, i, j, board)`, the same loops along row i. */
  method PlaceRight(w: string, i: int, j: int, b: Board) returns (undo: Option<Undo>, after: Board)
    requires IsSquare(b, |b|) && 0 <= i < |b| && 0 <= j < |b|
    ensures undo.Some? <==> CanPlace(b, w, i, j, true)
    ensures undo.None? ==> after == b
    ensures undo.Some? ==> && Place(b, w, i, j, true, AsWritten) == Some(Placed(after, undo.value))
                           && Spells(after, w, i, j, true)
                           && SameOutside(b, after, i, j, true, |w|)
  {
    if j > |b| - |w| {
      return None, b;
    }
    var ok, replaced := CheckRight(w, i, j, b);
    if !ok {
      return None, b;
    }
    after := WriteRight(w, i, j, b);
    undo := Some(Undo(i, j, true, replaced));
    LoopsPlace(b, w, i, j, true, after, replaced);
  }

  /** The checking loop of `placeRight` (lines 56-60); the undo string is
      read from `board[i][k]`. */
  method CheckRight(w: string, i: int, j: int, b: Board) returns (ok: bool, replaced: string)
    requires IsSquare(b, |b|) && 0 <= i < |b| && 0 <= j < |b| && j + |w| <= |b|
    ensures ok <==> CanPlace(b, w, i, j, true)
    ensures ok ==> replaced == Snapshot(b, w, i, j, true, AsWritten)
  {
    replaced := "";
    var p := j;
    while p < j + |w|
      invariant j <= p <= j + |w|
      invariant |replaced| == p - j
      invariant forall k :: 0 <= k < p - j ==> Free(b[i][j + k], w[k]) && replaced[k] == b[i][k]
    {
      if b[i][p] != Blank && b[i][p] != w[p - j] {
        assert !Free(b[RowOf(i, true, p - j)][ColOf(j, true, p - j)], w[p - j]);
        return false, replaced;
      }
      replaced := replaced + [b[i][p - j]];
      p := p + 1;
    }
    assert CanPlace(b, w, i, j, true);
    assert replaced == Snapshot(b, w, i, j, true, AsWritten);
    ok := true;
  }

  /** The writing loop of `placeRight` (lines 62-63). */
  method WriteRight(w: string, i: int, j: int, b: Board) returns (after: Board)
    requires IsSquare(b, |b|) && 0 <= i < |b| && 0 <= j && j + |w| <= |b|
    ensures after == Write(b, i, j, true, w)
  {
    after := b;
    WriteNothing(b, i, j, true);
    var p := j;
    while p < j + |w|
      invariant j <= p <= j + |w|
      invariant after == Write(b, i, j, true, w[..p - j])
    {
      WriteRightStep(b, i, j, w, p - j);
      after := after[i := after[i][p := w[p - j]]];
      p := p + 1;
    }
    assert w[..|w|] == w;
  }

  /** What the two loops of `placeDown`/`placeRight` leave is what `Place`
      returns. */
  lemma LoopsPlace(b: Board, w: string, i: int, j: int, isRight: bool, after: Board, replaced: string)
    requires IsSquare(b, |b|) && 0 <= i < |b| && 0 <= j < |b| && CanPlace(b, w, i, j, isRight)
    requires after == Write(b, i, j, isRight, w) && replaced == Snapshot(b, w, i, j, isRight, AsWritten)
    ensures Place(b, w, i, j, isRight, AsWritten) == Some(Placed(after, Undo(i, j, isRight, replaced)))
    ensures Spells(after, w, i, j, isRight) && SameOutside(b, after, i, j, isRight, |w|)
  {
    PlaceEffect(b, w, i, j, isRight);
  }

  /** Writing the empty string changes nothing. */
  lemma WriteNothing(b: Board, i: int, j: int, isRight: bool)
    ensures Write(b, i, j, isRight, "") == b
  {
    var w := Write(b, i, j, isRight, "");
    assert |w| == |b|;
    forall r | 0 <= r < |b|
      ensures w[r] == b[r]
    {
      assert |w[r]| == |b[r]|;
    }
  }

  /** One iteration of the writing loop of `placeDown`. */
  lemma WriteDownStep(b: Board, i: int, j: int, w: string, k: int)
    requires IsSquare(b, |b|) && 0 <= i && 0 <= j < |b| && 0 <= k < |w| && i + |w| <= |b|
    ensures
      var before := Write(b, i, j, false, w[..k]);
      Write(b, i, j, false, w[..k + 1]) == before[i + k := before[i + k][j := w[k]]]
  {
    var before := Write(b, i, j, false, w[..k]);
    var after := Write(b, i, j, false, w[..k + 1]);
    var stepped := before[i + k := before[i + k][j := w[k]]];
    assert |after| == |stepped|;
    forall r | 0 <= r < |b|
      ensures after[r] == stepped[r]
    {
      assert |after[r]| == |stepped[r]|;
      forall c | 0 <= c < |b[r]|
        ensures after[r][c] == stepped[r][c]
      {
        if Covers(i, j, false, k + 1, r, c) && r < i + k {
          assert w[..k + 1][r - i] == w[..k][r - i];
        }
      }
    }
  }

  /** One iteration of the writing loop of `placeRight`. */
  lemma WriteRightStep(b: Board, i: int, j: int, w: string, k: int)
    requires IsSquare(b, |b|) && 0 <= i < |b| && 0 <= j && 0 <= k < |w| && j + |w| <= |b|
    ensures
      var before := Write(b, i, j, true, w[..k]);
      Write(b, i, j, true, w[..k + 1]) == before[i := before[i][j + k := w[k]]]
  {
    var before := Write(b, i, j, true, w[..k]);
    var after := Write(b, i, j, true, w[..k + 1]);
    var stepped := before[i := before[i][j + k := w[k]]];
    assert |after| == |stepped|;
    forall r | 0 <= r < |b|
      ensures after[r] == stepped[r]
    {
      assert |after[r]| == |stepped[r]|;
      forall c | 0 <= c < |b[r]|
        ensures after[r][c] == stepped[r][c]
      {
        if Covers(i, j, true, k + 1, r, c) && c < j + k {
          assert w[..k + 1][c - j] == w[..k][c - j];
        }
      }
    }
  }
}
