/** Both fills on one small input: the words "a" and "b" on a 1 x 1 board,
    with every choice taken first. The fill as written returns a solution
    without "b"; the corrected fill reports that no solution exists. */
module FillExamples {
  import opened Board
  import opened Placement
  import opened Fill
  import opened CorrectedFill

  /** The 1 x 1 blank board. */
  function SingleCell(): Board
  {
    [[Blank]]
  }

  /** The 1 x 1 board holding 'a'. */
  function LetterCell(): Board
  {
    [['a']]
  }

  /** Always the first word, row 0, column 0, `placeDown` before `placeRight`. */
  function FirstChoices(): Strategy
  {
    Strategy(c => 0, c => [0], c => [0], (c, i, j) => false)
  }

  lemma FirstChoicesValid()
    ensures ValidStrategy(FirstChoices(), 1)
  {
    assert Indices(1) == [0];
  }

  /** Under `FirstChoices` every call tries cell (0, 0) downward, then
      rightward. */
  lemma FirstCandidates(c: Call)
    ensures CallCandidates(FirstChoices(), c) == [Candidate(0, 0, false), Candidate(0, 0, true)]
  {
    var st := FirstChoices();
    assert st.rows(c) == [0] && st.cols(c) == [0];
    assert RowCandidates(0, [0], (i: nat, j: nat) => st.rightFirst(c, i, j)) == Orientations(0, 0, false);
  }

  /** "a" goes on the blank cell either way, and both snapshot rules record
      the blank: on one cell `board[i][i+k]`, `board[i][k]` and the covered
      cell coincide. */
  lemma PlaceOnCell(isRight: bool, rule: SnapshotRule)
    ensures Place(SingleCell(), "a", 0, 0, isRight, rule) == Some(Placed(LetterCell(), Undo(0, 0, isRight, [Blank])))
  {
    var b := SingleCell();
    assert CanPlace(b, "a", 0, 0, isRight);
    var p := Place(b, "a", 0, 0, isRight, rule).value;
    assert At(p.board, RowOf(0, isRight, 0), ColOf(0, isRight, 0), "a"[0]);
    assert p.board[0] == ['a'];
    assert p.board == LetterCell();
    assert p.undo.replaced == [Blank];
    assert p.undo == Undo(0, 0, isRight, [Blank]);
  }

  /** Writing the blank back empties the cell again. */
  lemma UndoOnCell(isRight: bool)
    ensures ApplyUndo(LetterCell(), Undo(0, 0, isRight, [Blank])) == SingleCell()
  {
    var b := ApplyUndo(LetterCell(), Undo(0, 0, isRight, [Blank]));
    assert At(b, RowOf(0, isRight, 0), ColOf(0, isRight, 0), [Blank][0]);
    assert b[0] == [Blank];
  }

  /** A cell holding 'a' takes no other letter in either orientation. */
  lemma BlockedEverywhere(b: Board, w: string)
    requires b == LetterCell() && w == "b"
    ensures forall i, j, isRight :: 0 <= i < |b| && 0 <= j < |b| ==> !CanPlace(b, w, i, j, isRight)
  {
    forall i, j, isRight | 0 <= i < |b| && 0 <= j < |b|
      ensures !CanPlace(b, w, i, j, isRight)
    {
      assert !Free(b[RowOf(i, isRight, 0)][ColOf(j, isRight, 0)], w[0]);
    }
  }

  /** "a" and "b" cannot both go on one cell, yet `fillWords` succeeds: the
      failed call for "b" removed "b" from the list, and when "a" is retried
      rightward the list is empty. The solution omits "b". */
  lemma FillWordsDropsWord()
    ensures ValidStrategy(FirstChoices(), 1)
    ensures FillWords(FirstChoices(), [], SingleCell(), ["a", "b"]).solution == Some([Word("a", 0, 0, true)])
  {
    FirstDraw();
    DropsWordAttempts();
  }

  /** The first call draws "a", leaves ["b"] pending and tries cell (0, 0)
      downward, then rightward. */
  lemma FirstDraw()
    ensures ValidStrategy(FirstChoices(), 1)
    ensures OnBoard([Candidate(0, 0, false), Candidate(0, 0, true)], 1)
    ensures FillWords(FirstChoices(), [], SingleCell(), ["a", "b"]) ==
              TryCandidates(FirstChoices(), [], "a", [Candidate(0, 0, false), Candidate(0, 0, true)], SingleCell(), ["b"])
  {
    var st, b := FirstChoices(), SingleCell();
    FirstChoicesValid();
    var ws: seq<string> := ["a", "b"];
    assert st.pick(Call([], ws)) == 0 && ws[0] == "a";
    assert RemoveFirst(ws, "a") == ["b"];
    FirstCandidates(Call([], ws));
    FillWordsStep(st, [], b, ws);
  }

  /** The same first draw in the corrected fill. */
  lemma FixedFirstDraw()
    ensures ValidStrategy(FirstChoices(), 1)
    ensures OnBoard([Candidate(0, 0, false), Candidate(0, 0, true)], 1)
    ensures FillWordsFixed(FirstChoices(), [], SingleCell(), ["a", "b"]) ==
              TryFixed(FirstChoices(), [], "a", [Candidate(0, 0, false), Candidate(0, 0, true)], SingleCell(), ["b"])
  {
    var st, b := FirstChoices(), SingleCell();
    FirstChoicesValid();
    var ws: seq<string> := ["a", "b"];
    assert st.pick(Call([], ws)) == 0 && ws[0] == "a";
    assert RemoveFirst(ws, "a") == ["b"];
    FirstCandidates(Call([], ws));
    FillWordsFixedStep(st, [], b, ws);
  }

  /** The downward attempt fails and empties the list; the rightward one
      then succeeds. */
  lemma DropsWordAttempts()
    ensures ValidStrategy(FirstChoices(), 1)
    ensures TryCandidates(FirstChoices(), [], "a", [Candidate(0, 0, false), Candidate(0, 0, true)], SingleCell(), ["b"]).solution ==
              Some([Word("a", 0, 0, true)])
  {
    var cands := [Candidate(0, 0, false), Candidate(0, 0, true)];
    DownAttemptFails(cands);
    RightAttemptSucceeds(cands[1..]);
  }

  /** `placeDown("a", 0, 0)` succeeds; the call for "b" then raises with the
      list emptied, and the undo restores the blank cell. */
  lemma DownAttemptFails(cands: seq<Candidate>)
    requires OnBoard(cands, 1) && |cands| > 0 && cands[0] == Candidate(0, 0, false)
    ensures ValidStrategy(FirstChoices(), 1)
    ensures TryCandidates(FirstChoices(), [], "a", cands, SingleCell(), ["b"]) ==
              TryCandidates(FirstChoices(), [], "a", cands[1..], SingleCell(), [])
  {
    FirstChoicesValid();
    PlaceOnCell(false, AsWritten);
    DropsBlocked([] + [Word("a", 0, 0, false)]);
    UndoOnCell(false);
    TryCandidatesFailStep(FirstChoices(), [], "a", cands, SingleCell(), ["b"], Placed(LetterCell(), Undo(0, 0, false, [Blank])));
  }

  /** With 'a' on the only cell, the call for ["b"], wherever the search
      reaches it, raises after removing "b" from the list. */
  lemma DropsBlocked(path: seq<Word>)
    ensures ValidStrategy(FirstChoices(), 1)
    ensures FillWords(FirstChoices(), path, LetterCell(), ["b"]) == Outcome(None, LetterCell(), [])
  {
    var st, b := FirstChoices(), LetterCell();
    FirstChoicesValid();
    var bs: seq<string> := ["b"];
    assert bs[st.pick(Call(path, bs))] == "b";
    BlockedEverywhere(b, "b");
    FillWordsBlocked(st, path, b, bs);
    assert RemoveFirst(bs, "b") == [];
  }

  /** With the list empty, `placeRight("a", 0, 0)` succeeds and the
      recursive call returns []. */
  lemma RightAttemptSucceeds(cands: seq<Candidate>)
    requires OnBoard(cands, 1) && |cands| > 0 && cands[0] == Candidate(0, 0, true)
    ensures ValidStrategy(FirstChoices(), 1)
    ensures TryCandidates(FirstChoices(), [], "a", cands, SingleCell(), []).solution == Some([Word("a", 0, 0, true)])
  {
    var st := FirstChoices();
    FirstChoicesValid();
    PlaceOnCell(true, AsWritten);
    var none: seq<string> := [];
    assert FillWords(st, [] + [Word("a", 0, 0, true)], LetterCell(), none) == Outcome(Some([]), LetterCell(), []);
    TryCandidatesSucceedStep(st, [], "a", cands, SingleCell(), none, Placed(LetterCell(), Undo(0, 0, true, [Blank])));
    assert [] + [Word("a", 0, 0, true)] == [Word("a", 0, 0, true)];
  }

  /** The input on which `fillWords` drops "b" has no solution with every
      word, and the corrected fill reports that. */
  lemma FixedFillFailsWithoutDropping()
    ensures ValidStrategy(FirstChoices(), 1)
    ensures FillWordsFixed(FirstChoices(), [], SingleCell(), ["a", "b"]) == FixedOutcome(None, SingleCell())
  {
    FixedFirstDraw();
    FixedAttempts();
  }

  /** Both attempts for "a" fail with "b" still pending. */
  lemma FixedAttempts()
    ensures ValidStrategy(FirstChoices(), 1)
    ensures TryFixed(FirstChoices(), [], "a", [Candidate(0, 0, false), Candidate(0, 0, true)], SingleCell(), ["b"]) ==
              FixedOutcome(None, SingleCell())
  {
    var cands, tail := [Candidate(0, 0, false), Candidate(0, 0, true)], [Candidate(0, 0, true)];
    assert cands[1..] == tail && tail[1..] == [];
    FixedAttemptFails(false, cands);
    FixedAttemptFails(true, tail);
  }

  /** After "a" goes on the only cell, the call for "b" fails with "b"
      still pending and the board as it got it, and the corrected undo
      restores the blank cell. */
  lemma FixedAttemptFails(isRight: bool, cands: seq<Candidate>)
    requires OnBoard(cands, 1) && |cands| > 0 && cands[0] == Candidate(0, 0, isRight)
    ensures ValidStrategy(FirstChoices(), 1)
    ensures TryFixed(FirstChoices(), [], "a", cands, SingleCell(), ["b"]) ==
              TryFixed(FirstChoices(), [], "a", cands[1..], SingleCell(), ["b"])
  {
    FirstChoicesValid();
    PlaceOnCell(isRight, CoveredCells);
    FixedBlockedCell([] + [Word("a", 0, 0, isRight)]);
    TryFixedFailStep(FirstChoices(), [], "a", cands, SingleCell(), ["b"], Placed(LetterCell(), Undo(0, 0, isRight, [Blank])));
  }

  /** With 'a' on the only cell, the corrected fill of ["b"] fails, wherever
      the search reaches it, and leaves the board as it was. */
  lemma FixedBlockedCell(path: seq<Word>)
    ensures ValidStrategy(FirstChoices(), 1)
    ensures FillWordsFixed(FirstChoices(), path, LetterCell(), ["b"]) == FixedOutcome(None, LetterCell())
  {
    var st := FirstChoices();
    FirstChoicesValid();
    var bs: seq<string> := ["b"];
    assert bs[st.pick(Call(path, bs))] == "b";
    BlockedEverywhere(LetterCell(), "b");
    FixedBlocked(st, path, LetterCell(), bs);
  }
}
