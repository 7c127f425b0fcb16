/** The 4x4 grid "abcdefghijklmnop" and the words read down its columns:
    the as-written down-fit test loses the columns other than 0 for words that
    end on the last row. */
module SolverExamples {
  import opened Grid
  import opened WordsearchSolver

  /** The grid a b c d / e f g h / i j k l / m n o p, letter k of the
      alphabet at flat index k. */
  function Alphabet(): string
  {
    seq(16, k requires 0 <= k < 16 => ('a' as int + k) as char)
  }

  /** Each letter occurs once, so a run is pinned down by its first letter. */
  lemma StartCell(i: int, c: char)
    requires 0 <= i < 16 && 'a' <= c <= 'p' && Alphabet()[i] == c
    ensures i == c as int - 'a' as int
  {
  }

  lemma Distinct(i: int, j: int)
    requires 0 <= i < 16 && 0 <= j < 16 && Alphabet()[i] == Alphabet()[j]
    ensures i == j
  {
  }

  /** Column 2 reads "cgko": `bruteforceCheck` finds it, `is_present` does
      not, and the corrected down-fit test does. */
  lemma ColumnTwoMissed()
    ensures BruteforceCheck(Alphabet(), 4, "cgko")
    ensures !LookupWith(Alphabet(), 4, "cgko", AsWritten)
    ensures LookupWith(Alphabet(), 4, "cgko", Corrected)
  {
    LastRowColumnMissed(2, "cgko");
  }

  /** Column 1 reads "bfjn", with the same outcome as column 2. */
  lemma ColumnOneMissed()
    ensures BruteforceCheck(Alphabet(), 4, "bfjn")
    ensures !LookupWith(Alphabet(), 4, "bfjn", AsWritten)
    ensures LookupWith(Alphabet(), 4, "bfjn", Corrected)
  {
    LastRowColumnMissed(1, "bfjn");
  }

  /** Column 0 ("aeim") and a column run that stops above the last row
      ("bfj") pass the as-written test. */
  lemma OtherColumnsFound()
    ensures LookupWith(Alphabet(), 4, "aeim", AsWritten)
    ensures LookupWith(Alphabet(), 4, "bfj", AsWritten)
  {
    var g := Alphabet();
    assert DownRunAt(g, 4, 0, "aeim");
    assert DownRunAt(g, 4, 1, "bfj");
    AsWrittenLookupRuns(g, 4, "aeim");
    AsWrittenLookupRuns(g, 4, "bfj");
  }

  /** A word that is not spelled in a straight line is found by neither. */
  lemma BentWordAbsent()
    ensures !BruteforceCheck(Alphabet(), 4, "abfj")
    ensures !LookupWith(Alphabet(), 4, "abfj", AsWritten)
  {
    var g, w := Alphabet(), "abfj";
    NoRightRun(w);
    NoDownRun(w);
    BruteforceRuns(g, 4, w);
    if LookupWith(g, 4, w, AsWritten) {
      LookupSound(g, 4, w, AsWritten);
    }
  }

  lemma NoRightRun(w: string)
    requires w == "abfj"
    ensures forall i :: !RightRunAt(Alphabet(), 4, i, w)
  {
    var g := Alphabet();
    forall i | 0 <= i < 14
      ensures g[i] == w[0] ==> g[i + 2] != w[2]
    {
      if g[i] == w[0] {
        StartCell(i, 'a');
      }
    }
  }

  lemma NoDownRun(w: string)
    requires w == "abfj"
    ensures forall i :: !DownRunAt(Alphabet(), 4, i, w)
  {
    var g := Alphabet();
    forall i | 0 <= i < 12
      ensures g[i] == w[0] ==> g[i + 1 * 4] != w[1]
    {
      if g[i] == w[0] {
        StartCell(i, 'a');
      }
    }
  }

  /** The four-letter column `c` (1 <= c <= 3) ending on the last row. */
  lemma LastRowColumnMissed(c: int, w: string)
    requires 1 <= c <= 3 && |w| == 4
    requires forall r :: 0 <= r < 4 ==> w[r] == Alphabet()[c + r * 4]
    ensures BruteforceCheck(Alphabet(), 4, w)
    ensures !LookupWith(Alphabet(), 4, w, AsWritten)
    ensures LookupWith(Alphabet(), 4, w, Corrected)
  {
    ColumnFound(c, w);
    ColumnSkipped(c, w);
  }

  /** The column is a run, so the brute-force check and the corrected lookup
      find it. */
  lemma ColumnFound(c: int, w: string)
    requires 1 <= c <= 3 && |w| == 4
    requires forall r :: 0 <= r < 4 ==> w[r] == Alphabet()[c + r * 4]
    ensures BruteforceCheck(Alphabet(), 4, w) && LookupWith(Alphabet(), 4, w, Corrected)
  {
    var g := Alphabet();
    assert DownRunAt(g, 4, c, w);
    BruteforceRuns(g, 4, w);
    CorrectedLookupAgrees(g, 4, w);
  }

  /** Its only run starts at row 0 of a column other than 0 and ends on the
      last row, so the fit test as written skips it. */
  lemma ColumnSkipped(c: int, w: string)
    requires 1 <= c <= 3 && |w| == 4
    requires forall r :: 0 <= r < 4 ==> w[r] == Alphabet()[c + r * 4]
    ensures !LookupWith(Alphabet(), 4, w, AsWritten)
  {
    var g := Alphabet();
    assert w[0] == g[c];
    OnlyRunsFromTop(c, w);
    AsWrittenLookupRuns(g, 4, w);
  }

  /** The only run of such a column word is the column itself. */
  lemma OnlyRunsFromTop(c: int, w: string)
    requires 1 <= c <= 3 && |w| == 4
    requires w[0] == Alphabet()[c]
    ensures forall i :: !RightRunAt(Alphabet(), 4, i, w)
    ensures forall i :: DownRunAt(Alphabet(), 4, i, w) ==> i == c
  {
    var g := Alphabet();
    forall i | RightRunAt(g, 4, i, w) || DownRunAt(g, 4, i, w)
      ensures i == c
    {
      assert g[i] == w[0];
      Distinct(i, c);
    }
  }
}
