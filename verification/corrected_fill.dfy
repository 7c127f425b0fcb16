/** `fillWords` with its two defects repaired: the undo string is read from
    the covered cells, and a failed attempt leaves the pending list as it
    found it. Every word of the input then ends up in the solution. */
module CorrectedFill {
  import opened Board
  import opened Placement
  import opened Fill

  /** What a corrected fill returns: the placed words, or None for the
      source's ValueError, and the board it leaves behind. */
  datatype FixedOutcome = FixedOutcome(solution: Option<seq<Word>>, board: Board)

  /** No word contains the blank character. */
  predicate LettersOnly(ws: seq<string>)
  {
    forall w :: w in ws ==> Blank !in w
  }

  /** Every word of the solution is spelled on b where it says it is. */
  predicate AllSpelled(sol: seq<Word>, b: Board)
  {
    forall t :: 0 <= t < |sol| ==> Spells(b, sol[t].word, sol[t].i, sol[t].j, sol[t].isRight)
  }

  /** The fill with covered-cell undo and an unchanged pending list on
      failure, for the call reached along `path`. A failure leaves the board
      as the call found it; a solution places every input word exactly
      once. */
  function FillWordsFixed(st: Strategy, path: seq<Word>, board: Board, ws: seq<string>): (r: FixedOutcome)
    requires IsSquare(board, |board|) && ValidStrategy(st, |board|)
    ensures IsSquare(r.board, |board|) && Extends(board, r.board)
    ensures r.solution.None? ==> r.board == board
    ensures r.solution.Some? ==> multiset(Words(r.solution.value)) == multiset(ws)
    ensures r.solution.Some? && LettersOnly(ws) ==> AllSpelled(r.solution.value, r.board)
    ensures r.solution.Some? && ws != [] ==>
              var sol := r.solution.value;
              && |sol| > 0
              && LastWord(sol) == ws[st.pick(Call(path, ws))]
              && CanPlace(board, sol[|sol| - 1].word, sol[|sol| - 1].i, sol[|sol| - 1].j, sol[|sol| - 1].isRight)
    decreases |ws|, 1, 0
  {
    if ws == [] then FixedOutcome(Some([]), board)
    else
      var call := Call(path, ws);
      var word := ws[st.pick(call)];
      var rest := RemoveFirst(ws, word);
      CallCandidatesOnBoard(st, call, |board|);
      RestLettersOnly(ws, word, rest);
      TryFixed(st, path, word, CallCandidates(st, call), board, rest)
  }

  /** The candidate loop of the corrected fill for one drawn word. After a
      failed deeper call the undo runs on the board that call returned. */
  function TryFixed(st: Strategy, path: seq<Word>, word: string, cands: seq<Candidate>, board: Board, rest: seq<string>): (r: FixedOutcome)
    requires IsSquare(board, |board|) && ValidStrategy(st, |board|) && OnBoard(cands, |board|)
    ensures IsSquare(r.board, |board|) && Extends(board, r.board)
    ensures r.solution.None? ==> r.board == board
    ensures r.solution.Some? ==> multiset(Words(r.solution.value)) == multiset(rest) + multiset{word}
    ensures r.solution.Some? && LettersOnly(rest) && Blank !in word ==> AllSpelled(r.solution.value, r.board)
    ensures r.solution.Some? ==>
              var sol := r.solution.value;
              && |sol| > 0
              && LastWord(sol) == word
              && CanPlace(board, sol[|sol| - 1].word, sol[|sol| - 1].i, sol[|sol| - 1].j, sol[|sol| - 1].isRight)
    decreases |rest| + 1, 0, |cands|
  {
    if cands == [] then FixedOutcome(None, board)
    else
      var c := cands[0];
      match Place(board, word, c.i, c.j, c.isRight, CoveredCells)
      case None => TryFixed(st, path, word, cands[1..], board, rest)
      case Some(p) =>
        var x := Word(word, c.i, c.j, c.isRight);
        var sub := FillWordsFixed(st, path + [x], p.board, rest);
        if sub.solution.Some? then
          AddPlacement(board, p.board, sub.solution.value, sub.board, x, rest)
        else
          // The failed call hands back p.board, and the covered-cell undo
          // turns that into the board this attempt started from.
          CoveredUndoRestores(board, word, c.i, c.j, c.isRight);
          assert ApplyUndo(sub.board, p.undo) == board;
          TryFixed(st, path, word, cands[1..], board, rest)
  }

  /** A drawn word that fits nowhere makes the corrected fill fail with the
      board untouched. */
  lemma FixedBlocked(st: Strategy, path: seq<Word>, board: Board, ws: seq<string>)
    requires IsSquare(board, |board|) && ValidStrategy(st, |board|) && ws != []
    requires forall i, j, isRight :: 0 <= i < |board| && 0 <= j < |board| ==>
               !CanPlace(board, ws[st.pick(Call(path, ws))], i, j, isRight)
    ensures FillWordsFixed(st, path, board, ws) == FixedOutcome(None, board)
  {
    var call := Call(path, ws);
    CallCandidatesOnBoard(st, call, |board|);
    var word := ws[st.pick(call)];
    TryFixedBlocked(st, path, word, CallCandidates(st, call), board, RemoveFirst(ws, word));
  }

  lemma {:induction false} TryFixedBlocked(st: Strategy, path: seq<Word>, word: string, cands: seq<Candidate>, board: Board, rest: seq<string>)
    requires IsSquare(board, |board|) && ValidStrategy(st, |board|) && OnBoard(cands, |board|)
    requires forall t :: 0 <= t < |cands| ==> !CanPlace(board, word, cands[t].i, cands[t].j, cands[t].isRight)
    ensures TryFixed(st, path, word, cands, board, rest) == FixedOutcome(None, board)
    decreases |cands|
  {
    if cands != [] {
      assert !CanPlace(board, word, cands[0].i, cands[0].j, cands[0].isRight);
      var tail := cands[1..];
      assert forall t :: 0 <= t < |tail| ==> tail[t] == cands[t + 1];
      TryFixedBlocked(st, path, word, tail, board, rest);
    }
  }

  /** A successful deeper call, with the word placed before it appended:
      the solution gains the word, and the board keeps the word's letters. */
  function AddPlacement(board: Board, placed: Board, sol: seq<Word>, final: Board, x: Word, rest: seq<string>): (f: FixedOutcome)
    requires IsSquare(board, |board|) && CanPlace(board, x.word, x.i, x.j, x.isRight)
    requires Extends(board, placed) && Spells(placed, x.word, x.i, x.j, x.isRight)
    requires IsSquare(final, |board|) && Extends(placed, final)
    requires multiset(Words(sol)) == multiset(rest)
    requires LettersOnly(rest) ==> AllSpelled(sol, final)
    ensures f.solution.Some? && IsSquare(f.board, |board|) && Extends(board, f.board)
    ensures multiset(Words(f.solution.value)) == multiset(rest) + multiset{x.word}
    ensures LettersOnly(rest) && Blank !in x.word ==> AllSpelled(f.solution.value, f.board)
    ensures |f.solution.value| > 0 && f.solution.value[|f.solution.value| - 1] == x
  {
    WordsAppend(sol, x);
    ExtendsTransitive(board, placed, final);
    if LettersOnly(rest) && Blank !in x.word then
      SpellsKept(placed, final, x.word, x.i, x.j, x.isRight);
      AllSpelledAppend(sol, x, final);
      FixedOutcome(Some(sol + [x]), final)
    else
      FixedOutcome(Some(sol + [x]), final)
  }

  /** A word without blanks stays spelled on any board that keeps every
      letter. */
  lemma SpellsKept(b: Board, b': Board, w: string, i: int, j: int, isRight: bool)
    requires Spells(b, w, i, j, isRight) && Blank !in w && Extends(b, b')
    ensures Spells(b', w, i, j, isRight)
  {
    forall k | 0 <= k < |w|
      ensures At(b', RowOf(i, isRight, k), ColOf(j, isRight, k), w[k])
    {
      assert At(b, RowOf(i, isRight, k), ColOf(j, isRight, k), w[k]);
      assert w[k] in w;
    }
  }

  lemma AllSpelledAppend(sol: seq<Word>, x: Word, b: Board)
    requires AllSpelled(sol, b) && Spells(b, x.word, x.i, x.j, x.isRight)
    ensures AllSpelled(sol + [x], b)
  {
    var all := sol + [x];
    forall t | 0 <= t < |all|
      ensures Spells(b, all[t].word, all[t].i, all[t].j, all[t].isRight)
    {
      if t < |sol| {
        assert all[t] == sol[t];
      }
    }
  }

  /** The drawn word and the words left after it inherit "no blanks". */
  lemma RestLettersOnly(ws: seq<string>, word: string, rest: seq<string>)
    requires word in ws && multiset(rest) <= multiset(ws)
    ensures LettersOnly(ws) ==> Blank !in word && LettersOnly(rest)
  {
    if LettersOnly(ws) {
      forall w | w in rest
        ensures Blank !in w
      {
        assert w in multiset(rest);
      }
    }
  }

  /** One iteration of the corrected candidate loop in which the deeper
      call fails: that call hands back the board it was given, the covered
      cells are restored, and the loop goes on from the same board with the
      same list. */
  lemma TryFixedFailStep(st: Strategy, path: seq<Word>, word: string, cands: seq<Candidate>, board: Board, rest: seq<string>, p: Placed)
    requires IsSquare(board, |board|) && ValidStrategy(st, |board|) && OnBoard(cands, |board|) && cands != []
    requires Place(board, word, cands[0].i, cands[0].j, cands[0].isRight, CoveredCells) == Some(p)
    requires FillWordsFixed(st, path + [Word(word, cands[0].i, cands[0].j, cands[0].isRight)], p.board, rest).solution.None?
    ensures TryFixed(st, path, word, cands, board, rest) == TryFixed(st, path, word, cands[1..], board, rest)
  {
    CoveredUndoRestores(board, word, cands[0].i, cands[0].j, cands[0].isRight);
  }

  lemma FillWordsFixedStep(st: Strategy, path: seq<Word>, board: Board, ws: seq<string>)
    requires IsSquare(board, |board|) && ValidStrategy(st, |board|) && ws != []
    ensures OnBoard(CallCandidates(st, Call(path, ws)), |board|)
    ensures
      var call := Call(path, ws);
      FillWordsFixed(st, path, board, ws) ==
      TryFixed(st, path, ws[st.pick(call)], CallCandidates(st, call), board, RemoveFirst(ws, ws[st.pick(call)]))
  {
    CallCandidatesOnBoard(st, Call(path, ws), |board|);
  }
}
