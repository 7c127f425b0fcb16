/** `fillLooseLetters`: every blank cell of the board receives a lower-case
    letter, visiting cells row by row. The random letter is a parameter:
    `choice(i, j)` is the index into the alphabet drawn at cell (i, j). */
module LooseLetters {
  import opened Board
  import opened Placement
  import opened Fill
  import opened CorrectedFill

  /** `string.ascii_lowercase`. */
  const Letters: string := "abcdefghijklmnopqrstuvwxyz"

  /** A choice function draws an index into the alphabet at every cell. */
  ghost predicate ValidChoice(choice: (nat, nat) -> nat)
  {
    forall i: nat, j: nat :: choice(i, j) < |Letters|
  }

  /** What cell (r, c) holds once the fill has passed it. */
  ghost function Covered(b: Board, choice: (nat, nat) -> nat, r: nat, c: nat): char
    requires ValidChoice(choice) && r < |b| && c < |b[r]|
  {
    if b[r][c] == Blank then Letters[choice(r, c)] else b[r][c]
  }

  /** Cell (r, c) comes before cell (i, j) in row-major order, the order of
      `itertools.product(range(n), range(n))`. */
  predicate Before(r: nat, c: nat, i: nat, j: nat)
  {
    r < i || (r == i && c < j)
  }

  /** b' is b with every cell before (i, j) covered and every other cell as
      it was. */
  ghost predicate FilledUpTo(b: Board, b': Board, choice: (nat, nat) -> nat, n: nat, i: nat, j: nat)
    requires ValidChoice(choice) && IsSquare(b, n)
  {
    && IsSquare(b', n)
    && forall r, c :: 0 <= r < n && 0 <= c < n ==>
         b'[r][c] == if Before(r, c, i, j) then Covered(b, choice, r, c) else b[r][c]
  }

  /** The fill itself, on a square board of side `len(board)`. */
  method FillLooseLetters(b: Board, choice: (nat, nat) -> nat) returns (b': Board)
    requires IsSquare(b, |b|) && ValidChoice(choice)
    ensures IsSquare(b', |b|) && NoBlanks(b') && Extends(b, b')
    ensures forall r, c :: 0 <= r < |b| && 0 <= c < |b| && b[r][c] == Blank ==> b'[r][c] == Letters[choice(r, c)]
    ensures NoBlanks(b) ==> b' == b
  {
    var n := |b|;
    b' := b;
    var i := 0;
    while i < n
      invariant 0 <= i <= n
      invariant FilledUpTo(b, b', choice, n, i, 0)
    {
      var j := 0;
      while j < n
        invariant 0 <= j <= n
        invariant FilledUpTo(b, b', choice, n, i, j)
      {
        if b'[i][j] == Blank {
          b' := b'[i := b'[i][j := Letters[choice(i, j)]]];
        }
        j := j + 1;
      }
      NextRow(b, b', choice, n, i);
      i := i + 1;
    }
    FilledAll(b, b', choice, n);
  }

  /** Finishing row i is starting row i + 1. */
  lemma NextRow(b: Board, b': Board, choice: (nat, nat) -> nat, n: nat, i: nat)
    requires ValidChoice(choice) && IsSquare(b, n)
    requires FilledUpTo(b, b', choice, n, i, n)
    ensures FilledUpTo(b, b', choice, n, i + 1, 0)
  {
    forall r, c | 0 <= r < n && 0 <= c < n
      ensures b'[r][c] == if Before(r, c, i + 1, 0) then Covered(b, choice, r, c) else b[r][c]
    {
      assert Before(r, c, i + 1, 0) == Before(r, c, i, n);
    }
  }

  /** Once every row is done, blanks hold drawn letters and the rest is kept. */
  lemma FilledAll(b: Board, b': Board, choice: (nat, nat) -> nat, n: nat)
    requires ValidChoice(choice) && IsSquare(b, n)
    requires FilledUpTo(b, b', choice, n, n, 0)
    ensures NoBlanks(b') && Extends(b, b')
    ensures forall r, c :: 0 <= r < n && 0 <= c < n && b[r][c] == Blank ==> b'[r][c] == Letters[choice(r, c)]
    ensures NoBlanks(b) ==> b' == b
  {
    forall r, c | 0 <= r < n && 0 <= c < n
      ensures b'[r][c] == Covered(b, choice, r, c)
    {
      assert Before(r, c, n, 0);
    }
    forall r, c | 0 <= r < n && 0 <= c < n
      ensures b'[r][c] != Blank
    {
      assert Letters[choice(r, c)] in Letters;
    }
    if NoBlanks(b) {
      forall r | 0 <= r < n
        ensures b'[r] == b[r]
      {
      }
    }
  }

  /** Covering the blanks keeps every placed word readable: a board on which
      a solution is spelled still spells it after any fill that keeps its
      letters, as long as no word holds the blank character. */
  lemma LooseLettersKeepWords(sol: seq<Word>, b: Board, b': Board)
    requires AllSpelled(sol, b) && LettersOnly(Words(sol)) && Extends(b, b')
    ensures AllSpelled(sol, b')
  {
    forall t | 0 <= t < |sol|
      ensures Spells(b', sol[t].word, sol[t].i, sol[t].j, sol[t].isRight)
    {
      assert sol[t].word in Words(sol);
      SpellsKept(b, b', sol[t].word, sol[t].i, sol[t].j, sol[t].isRight);
    }
  }
}
