/** The backtracking fill (WordsearchCreation.py `fillWords`) and the final
    pass over blank cells (`fillLooseLetters`). The random choices of the
    source are supplied by the caller as a `Strategy`. */
module Fill {
  import opened Board
  import opened Placement

  /** `Word = namedtuple('Word', 'word i j isRight')`: a placed word. */
  datatype Word = Word(word: string, i: int, j: int, isRight: bool)

  /** One attempt of the candidate loop: a start cell and an orientation. */
  datatype Candidate = Candidate(i: int, j: int, isRight: bool)

  /** Where a call of `fillWords` stands in the search: the placements made
      on the way down to it, outermost first, and the pending list at its
      entry. Sibling calls follow different placements, so their paths
      differ even when their pending lists agree. */
  datatype Call = Call(path: seq<Word>, pending: seq<string>)

  /** The random choices of every `fillWords` call, as functions of the
      call: the index `random.choice` picks, the two shuffled index lists,
      and for each cell whether `placeRight` is tried before `placeDown`. */
  datatype Strategy = Strategy(
    pick: Call -> nat,
    rows: Call -> seq<nat>,
    cols: Call -> seq<nat>,
    rightFirst: (Call, nat, nat) -> bool)

  /** `list(range(n))`. */
  function Indices(n: nat): seq<nat>
  {
    seq(n, (k: int) requires 0 <= k => k as nat)
  }

  /** What `random.shuffle(list(range(n)))` can produce: every index below n
      exactly once, in some order. */
  predicate IsShuffle(s: seq<nat>, n: nat)
  {
    multiset(s) == multiset(Indices(n))
  }

  /** The elements of a shuffle of `range(n)` are indices below n. */
  lemma ShuffleBounds(s: seq<nat>, n: nat)
    requires IsShuffle(s, n)
    ensures forall t :: 0 <= t < |s| ==> s[t] < n
  {
    forall t | 0 <= t < |s|
      ensures s[t] < n
    {
      assert s[t] in multiset(Indices(n));
      var k :| 0 <= k < n && Indices(n)[k] == s[t];
    }
  }

  /** The choices are ones the random module can make: a picked index of the
      pending list, and shuffles of the board's row and column indices. */
  ghost predicate ValidStrategy(st: Strategy, n: nat)
  {
    && (forall c: Call :: 0 < |c.pending| ==> st.pick(c) < |c.pending|)
    && (forall c: Call :: IsShuffle(st.rows(c), n))
    && (forall c: Call :: IsShuffle(st.cols(c), n))
  }

  /** Every candidate starts on an n x n board. */
  predicate OnBoard(cands: seq<Candidate>, n: nat)
  {
    forall t :: 0 <= t < |cands| ==> cands[t].i < n && cands[t].j < n && 0 <= cands[t].i && 0 <= cands[t].j
  }

  /** The two orientations of one cell, in the order tried. */
  function Orientations(i: nat, j: nat, rightFirst: bool): seq<Candidate>
  {
    if rightFirst then [Candidate(i, j, true), Candidate(i, j, false)]
    else [Candidate(i, j, false), Candidate(i, j, true)]
  }

  /** The attempts for row i, over the shuffled columns. */
  function RowCandidates(i: nat, cols: seq<nat>, rightFirst: (nat, nat) -> bool): (r: seq<Candidate>)
    ensures forall c :: c in r <==> c.i == i && c.j in cols
  {
    if cols == [] then []
    else Orientations(i, cols[0], rightFirst(i, cols[0])) + RowCandidates(i, cols[1..], rightFirst)
  }

  /** The attempts in the order of `itertools.product(randomI, randomJ)`,
      each cell with both orientations. */
  function Candidates(rows: seq<nat>, cols: seq<nat>, rightFirst: (nat, nat) -> bool): (r: seq<Candidate>)
    ensures forall c :: c in r <==> c.i in rows && c.j in cols
  {
    if rows == [] then []
    else RowCandidates(rows[0], cols, rightFirst) + Candidates(rows[1..], cols, rightFirst)
  }

  /** The attempts of one call. */
  function CallCandidates(st: Strategy, c: Call): seq<Candidate>
  {
    Candidates(st.rows(c), st.cols(c), (i: nat, j: nat) => st.rightFirst(c, i, j))
  }

  lemma CallCandidatesOnBoard(st: Strategy, c: Call, n: nat)
    requires ValidStrategy(st, n)
    ensures OnBoard(CallCandidates(st, c), n)
  {
    var cands := CallCandidates(st, c);
    ShuffleBounds(st.rows(c), n);
    ShuffleBounds(st.cols(c), n);
    forall t | 0 <= t < |cands|
      ensures cands[t].i < n && cands[t].j < n
    {
      assert cands[t] in cands;
      var a :| 0 <= a < |st.rows(c)| && st.rows(c)[a] == cands[t].i;
      var b :| 0 <= b < |st.cols(c)| && st.cols(c)[b] == cands[t].j;
    }
  }

  /** Python's `list.remove(w)`: drops the first element equal to w. */
  function RemoveFirst(ws: seq<string>, w: string): (r: seq<string>)
    ensures w in ws ==> multiset(r) + multiset{w} == multiset(ws) && |r| == |ws| - 1
    ensures w !in ws ==> r == ws
  {
    if ws == [] then []
    else
      assert ws == [ws[0]] + ws[1..];
      if ws[0] == w then ws[1..]
      else [ws[0]] + RemoveFirst(ws[1..], w)
  }

  /** The words of a solution, in order. */
  function Words(sol: seq<Word>): (r: seq<string>)
    ensures |r| == |sol| && forall t :: 0 <= t < |sol| ==> r[t] == sol[t].word
  {
    seq(|sol|, t requires 0 <= t < |sol| => sol[t].word)
  }

  /** The word placed last in a solution: the first one drawn. */
  function LastWord(sol: seq<Word>): string
    requires |sol| > 0
  {
    sol[|sol| - 1].word
  }

  lemma WordsAppend(sol: seq<Word>, x: Word)
    ensures Words(sol + [x]) == Words(sol) + [x.word]
  {
  }

  /** The solution ends with `word` placed at one of the attempted cells, in
      the orientation the attempt used, which fits on an n x n board. */
  predicate EndsWithAttempt(sol: seq<Word>, word: string, cands: seq<Candidate>, n: nat)
  {
    && |sol| > 0
    && LastWord(sol) == word
    && Candidate(sol[|sol| - 1].i, sol[|sol| - 1].j, sol[|sol| - 1].isRight) in cands
    && InBounds(n, sol[|sol| - 1].i, sol[|sol| - 1].j, sol[|sol| - 1].isRight, |word|)
  }

  /** An attempt later in the list is an attempt of the whole list. */
  lemma EndsWithAttemptTail(sol: seq<Word>, word: string, cands: seq<Candidate>, n: nat)
    requires |cands| > 0 && EndsWithAttempt(sol, word, cands[1..], n)
    ensures EndsWithAttempt(sol, word, cands, n)
  {
    var x := sol[|sol| - 1];
    var t :| 0 <= t < |cands[1..]| && cands[1..][t] == Candidate(x.i, x.j, x.isRight);
    assert cands[t + 1] == Candidate(x.i, x.j, x.isRight);
  }

  /** What a call leaves behind: the returned list (None where the source
      raises ValueError), the board as mutated, and the pending list as
      mutated. */
  datatype Outcome = Outcome(solution: Option<seq<Word>>, board: Board, pending: seq<string>)

  /** `fillWords(board, words)` as written, for the call reached along
      `path`. The word drawn is removed from the list; each placement that
      succeeds is followed by the recursive call; when that call raises, the
      undo closure runs and the loop goes on with the board and the list as
      the failed call left them. */
  function FillWords(st: Strategy, path: seq<Word>, board: Board, ws: seq<string>): (r: Outcome)
    requires IsSquare(board, |board|) && ValidStrategy(st, |board|)
    ensures IsSquare(r.board, |board|)
    ensures |r.pending| <= |ws| && multiset(r.pending) <= multiset(ws)
    ensures ws == [] ==> r == Outcome(Some([]), board, [])
    ensures ws != [] ==> |r.pending| < |ws|
    ensures r.solution.Some? ==> r.pending == [] && multiset(Words(r.solution.value)) <= multiset(ws)
    ensures r.solution.Some? && ws != [] ==>
              EndsWithAttempt(r.solution.value, ws[st.pick(Call(path, ws))], CallCandidates(st, Call(path, ws)), |board|)
    decreases |ws|, 1, 0
  {
    if ws == [] then Outcome(Some([]), board, [])
    else
      var call := Call(path, ws);
      var word := ws[st.pick(call)];
      assert word in ws;
      var rest := RemoveFirst(ws, word);
      CallCandidatesOnBoard(st, call, |board|);
      TryCandidates(st, path, word, CallCandidates(st, call), board, rest)
  }

  /** The candidate loop of `fillWords` for one drawn word. A success ends
      with the placement that passed: one of the attempted cells, in the
      orientation that fitted there. */
  function TryCandidates(st: Strategy, path: seq<Word>, word: string, cands: seq<Candidate>, board: Board, pending: seq<string>): (r: Outcome)
    requires IsSquare(board, |board|) && ValidStrategy(st, |board|) && OnBoard(cands, |board|)
    ensures IsSquare(r.board, |board|)
    ensures |r.pending| <= |pending| && multiset(r.pending) <= multiset(pending)
    ensures r.solution.Some? ==> r.pending == [] && multiset(Words(r.solution.value)) <= multiset(pending) + multiset{word}
    ensures r.solution.Some? ==> EndsWithAttempt(r.solution.value, word, cands, |board|)
    decreases |pending| + 1, 0, |cands|
  {
    if cands == [] then Outcome(None, board, pending)
    else
      var c := cands[0];
      match Place(board, word, c.i, c.j, c.isRight, AsWritten)
      case None =>
        var r := TryCandidates(st, path, word, cands[1..], board, pending);
        if r.solution.Some? then EndsWithAttemptTail(r.solution.value, word, cands, |board|); r else r
      case Some(p) =>
        var x := Word(word, c.i, c.j, c.isRight);
        var sub := FillWords(st, path + [x], p.board, pending);
        if sub.solution.Some? then
          // `fillWords(...) + [Word(...)]`: the deeper solution, then x.
          WordsAppend(sub.solution.value, x);
          Outcome(Some(sub.solution.value + [x]), sub.board, sub.pending)
        else
          var r := TryCandidates(st, path, word, cands[1..], ApplyUndo(sub.board, p.undo), sub.pending);
          if r.solution.Some? then EndsWithAttemptTail(r.solution.value, word, cands, |board|); r else r
  }

  /** `raise ValueError` at the end of `fillWords`: when the drawn word fits
      nowhere, the call fails and leaves the board as it was and the word
      removed from the list. */
  lemma FillWordsBlocked(st: Strategy, path: seq<Word>, board: Board, ws: seq<string>)
    requires IsSquare(board, |board|) && ValidStrategy(st, |board|) && ws != []
    requires forall i, j, isRight :: 0 <= i < |board| && 0 <= j < |board| ==>
               !CanPlace(board, ws[st.pick(Call(path, ws))], i, j, isRight)
    ensures FillWords(st, path, board, ws) == Outcome(None, board, RemoveFirst(ws, ws[st.pick(Call(path, ws))]))
  {
    var call := Call(path, ws);
    CallCandidatesOnBoard(st, call, |board|);
    var word := ws[st.pick(call)];
    TryCandidatesBlocked(st, path, word, CallCandidates(st, call), board, RemoveFirst(ws, word));
  }

  /** A candidate loop in which no placement passes its checks changes
      neither the board nor the list. */
  lemma {:induction false} TryCandidatesBlocked(st: Strategy, path: seq<Word>, word: string, cands: seq<Candidate>, board: Board, pending: seq<string>)
    requires IsSquare(board, |board|) && ValidStrategy(st, |board|) && OnBoard(cands, |board|)
    requires forall t :: 0 <= t < |cands| ==> !CanPlace(board, word, cands[t].i, cands[t].j, cands[t].isRight)
    ensures TryCandidates(st, path, word, cands, board, pending) == Outcome(None, board, pending)
    decreases |cands|
  {
    if cands != [] {
      assert !CanPlace(board, word, cands[0].i, cands[0].j, cands[0].isRight);
      var tail := cands[1..];
      assert forall t :: 0 <= t < |tail| ==> tail[t] == cands[t + 1];
      TryCandidatesBlocked(st, path, word, tail, board, pending);
    }
  }

  /** One iteration of the candidate loop in which the placement succeeds
      but the deeper call raises: the undo runs and the loop goes on with the
      list as the deeper call left it. */
  lemma TryCandidatesFailStep(st: Strategy, path: seq<Word>, word: string, cands: seq<Candidate>, board: Board, pending: seq<string>, p: Placed)
    requires IsSquare(board, |board|) && ValidStrategy(st, |board|) && OnBoard(cands, |board|) && cands != []
    requires Place(board, word, cands[0].i, cands[0].j, cands[0].isRight, AsWritten) == Some(p)
    requires FillWords(st, path + [Word(word, cands[0].i, cands[0].j, cands[0].isRight)], p.board, pending).solution.None?
    ensures
      var sub := FillWords(st, path + [Word(word, cands[0].i, cands[0].j, cands[0].isRight)], p.board, pending);
      TryCandidates(st, path, word, cands, board, pending) ==
      TryCandidates(st, path, word, cands[1..], ApplyUndo(sub.board, p.undo), sub.pending)
  {
  }

  /** One iteration in which the placement and the deeper call succeed: the
      current word goes after the deeper solution. */
  lemma TryCandidatesSucceedStep(st: Strategy, path: seq<Word>, word: string, cands: seq<Candidate>, board: Board, pending: seq<string>, p: Placed)
    requires IsSquare(board, |board|) && ValidStrategy(st, |board|) && OnBoard(cands, |board|) && cands != []
    requires Place(board, word, cands[0].i, cands[0].j, cands[0].isRight, AsWritten) == Some(p)
    requires FillWords(st, path + [Word(word, cands[0].i, cands[0].j, cands[0].isRight)], p.board, pending).solution.Some?
    ensures
      var x := Word(word, cands[0].i, cands[0].j, cands[0].isRight);
      TryCandidates(st, path, word, cands, board, pending).solution ==
      Some(FillWords(st, path + [x], p.board, pending).solution.value + [x])
  {
  }

  lemma FillWordsStep(st: Strategy, path: seq<Word>, board: Board, ws: seq<string>)
    requires IsSquare(board, |board|) && ValidStrategy(st, |board|) && ws != []
    ensures OnBoard(CallCandidates(st, Call(path, ws)), |board|)
    ensures
      var call := Call(path, ws);
      FillWords(st, path, board, ws) ==
      TryCandidates(st, path, ws[st.pick(call)], CallCandidates(st, call), board, RemoveFirst(ws, ws[st.pick(call)]))
  {
    CallCandidatesOnBoard(st, Call(path, ws), |board|);
  }
}
