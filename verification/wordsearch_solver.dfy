/** Word lookup on a finished grid (WordsearchSolver.py): the indexed lookup
    `statisticallyFasterLookup` behind `is_present`, and the brute-force scan
    `bruteforceCheck` it is meant to agree with. */
module WordsearchSolver {
  import opened Arith
  import opened PySlice
  import opened Grid
  import opened SubstringIndex

  /** `w` occurs in `s` starting at position k. */
  predicate OccursAt(w: string, s: string, k: int)
  {
    0 <= k && k + |w| <= |s| && s[k..k + |w|] == w
  }

  /** Python's `w in s` for strings: `w` is a substring of `s`. The empty
      string is a substring of every string. */
  predicate Contains(s: string, w: string)
  {
    exists k :: 0 <= k <= |s| && OccursAt(w, s, k)
  }

  /** `bruteforceCheck`: `w` is a substring of some row or some column. */
  predicate BruteforceCheck(g: string, n: nat, w: string)
    requires |g| == n * n
  {
    var options := Rows(g, n) + Columns(g, n);
    exists t :: 0 <= t < |options| && Contains(options[t], w)
  }

  /** The key the lookup uses: the first `HashLength` characters of the word
      (the whole word when it is shorter). */
  function Prefix(w: string): string
  {
    w[..Min(HashLength, |w|)]
  }

  /** Which fit test a downward candidate must pass. `AsWritten` is the
      source's `index + len(word)*N <= len(grid)`; `Corrected` asks that the
      run end on or before the last row, `index // N + len(word) <= N`. */
  datatype DownFit = AsWritten | Corrected

  /** One iteration of the candidate loop returns True for `loc`: the fit test
      for its direction passes and the rest of the word equals the grid
      characters `g[checkStart:checkEnd:offset]`. */
  predicate Accepts(g: string, n: nat, w: string, loc: Location, rule: DownFit)
    requires 0 < n && 0 <= loc.index && 1 <= loc.offset
  {
    var p := Prefix(w);
    MulLe(0, |p|, loc.offset);
    var checkStart := loc.index + |p| * loc.offset;
    var checkEnd := loc.index + |w| * loc.offset;
    var fits :=
      if loc.offset == 1 then loc.index % n + |w| <= n
      else if rule == AsWritten then checkEnd <= |g|
      else loc.index / n + |w| <= n;
    fits && w[|p|..] == Slice(g, checkStart, checkEnd, loc.offset)
  }

  /** `statisticallyFasterLookup` under a down-fit rule: the prefix is a key of
      the index and some location filed under it is accepted. */
  predicate LookupWith(g: string, n: nat, w: string, rule: DownFit)
    requires |g| == n * n
  {
    var m := StringLookup(g, n);
    var p := Prefix(w);
    if p !in m then false
    else
      StringLookupLocations(g, n);
      exists k :: 0 <= k < |m[p]| && Accepts(g, n, w, m[p][k], rule)
  }

  /** `is_present` / `statisticallyFasterLookup` (as written): looks the prefix
      up and reports False when it is not a key; otherwise scans the candidate
      locations filed under it. */
  method IsPresent(g: string, n: nat, w: string) returns (found: bool)
    requires |g| == n * n
    ensures found == LookupWith(g, n, w, AsWritten)
  {
    var m := StringLookup(g, n);
    var p := w[..Min(HashLength, |w|)];
    if p !in m {
      return false;
    }
    StringLookupLocations(g, n);
    found := ScanCandidates(g, n, w, m[p]);
  }

  /** The candidate loop of `statisticallyFasterLookup`: walks the locations
      in order and returns True at the first one whose fit test and remainder
      comparison both pass. */
  method ScanCandidates(g: string, n: nat, w: string, locations: seq<Location>) returns (found: bool)
    requires 0 < n
    requires forall t :: 0 <= t < |locations| ==> 0 <= locations[t].index && 1 <= locations[t].offset
    ensures found <==> exists t :: 0 <= t < |locations| && Accepts(g, n, w, locations[t], AsWritten)
  {
    var p := w[..Min(HashLength, |w|)];
    var k := 0;
    while k < |locations|
      invariant 0 <= k <= |locations|
      invariant forall t :: 0 <= t < k ==> !Accepts(g, n, w, locations[t], AsWritten)
    {
      var loc := locations[k];
      MulLe(0, |p|, loc.offset);
      var checkStart := loc.index + |p| * loc.offset;
      var checkEnd := loc.index + |w| * loc.offset;
      var fits;
      if loc.offset == 1 {
        fits := loc.index % n + |w| <= n;
      } else {
        fits := checkEnd <= |g|;
      }
      if fits && w[|p|..] == Slice(g, checkStart, checkEnd, loc.offset) {
        return true;
      }
      k := k + 1;
    }
    return false;
  }

  // ---------------------------------------------------------------------
  // The brute-force check in terms of runs

  /** A rightward run is an occurrence in the row of its start cell. */
  lemma RightRunInRow(g: string, n: nat, i: int, w: string)
    requires |g| == n * n && RightRunAt(g, n, i, w)
    ensures 0 <= i / n < n && OccursAt(w, Rows(g, n)[i / n], i % n)
  {
    CellOfIndex(i, n);
    var r, c := i / n, i % n;
    RowCellOfIndex(g, n, i, 0);
    var row := Rows(g, n)[r];
    forall t | 0 <= t < |w|
      ensures row[c + t] == w[t]
    {
      RunChar(g, n, i, w, t);
      RowCellOfIndex(g, n, i, t);
    }
    OccursFromChars(w, row, c);
  }

  /** Character t of a rightward run from i is `g[i + t]`. */
  lemma RunChar(g: string, n: nat, i: int, w: string, t: int)
    requires RightRunAt(g, n, i, w) && 0 <= t < |w|
    ensures i + t < |g| && g[i + t] == w[t]
  {
  }

  /** Cell t places right of flat index i, in i's row, is `g[i + t]`. */
  lemma RowCellOfIndex(g: string, n: nat, i: int, t: int)
    requires |g| == n * n && 0 <= i < |g| && 0 <= t && i % n + t < n
    ensures 0 <= i / n < n && i + t < |g| && |Rows(g, n)[i / n]| == n
    ensures Rows(g, n)[i / n][i % n + t] == g[i + t]
  {
    CellOfIndex(i, n);
    RowCells(g, n, i / n);
    IndexOfCell(i / n, i % n + t, n);
  }

  /** Position-wise agreement is an occurrence. */
  lemma OccursFromChars(w: string, s: string, k: int)
    requires 0 <= k && k + |w| <= |s|
    requires forall t :: 0 <= t < |w| ==> s[k + t] == w[t]
    ensures OccursAt(w, s, k)
  {
    assert s[k..k + |w|] == w;
  }

  /** A non-empty occurrence in row r is a rightward run. */
  lemma RowOccurrenceRun(g: string, n: nat, r: int, k: int, w: string)
    requires |g| == n * n && 0 <= r < n && |w| > 0
    requires OccursAt(w, Rows(g, n)[r], k)
    ensures RightRunAt(g, n, r * n + k, w)
  {
    RowCells(g, n, r);
    var row := Rows(g, n)[r];
    IndexOfCell(r, k, n);
    IndexOfCell(r, k + |w| - 1, n);
    var i := r * n + k;
    forall t | 0 <= t < |w|
      ensures i + t < |g| && g[i + t] == w[t]
    {
      assert row[k + t] == w[t];
      IndexOfCell(r, k + t, n);
      assert Cell(g, n, r, k + t) == g[i + t];
    }
    RunFromCells(g, n, i, w);
  }

  /** Cells i .. i + |w| - 1 spelling w inside one row make a rightward run. */
  lemma RunFromCells(g: string, n: nat, i: int, w: string)
    requires 0 < n && 0 <= i && 0 < |w| && i % n + |w| <= n && i + |w| <= |g|
    requires forall t :: 0 <= t < |w| ==> i + t < |g| && g[i + t] == w[t]
    ensures RightRunAt(g, n, i, w)
  {
    assert i + (|w| - 1) < |g| && g[i + (|w| - 1)] == w[|w| - 1];
  }

  /** A downward run is an occurrence in the column of its start cell. */
  lemma DownRunInColumn(g: string, n: nat, i: int, w: string)
    requires |g| == n * n && DownRunAt(g, n, i, w)
    ensures 0 <= i % n < n && OccursAt(w, Columns(g, n)[i % n], i / n)
  {
    CellOfIndex(i, n);
    var r, c := i / n, i % n;
    ColumnCells(g, n, c);
    var col := Columns(g, n)[c];
    forall t | 0 <= t < |w|
      ensures col[r + t] == w[t]
    {
      MulAdd(r, t, n);
      assert Cell(g, n, r + t, c) == g[i + t * n];
    }
  }

  /** A non-empty occurrence in column c is a downward run. */
  lemma ColumnOccurrenceRun(g: string, n: nat, c: int, k: int, w: string)
    requires |g| == n * n && 0 <= c < n && |w| > 0
    requires OccursAt(w, Columns(g, n)[c], k)
    ensures DownRunAt(g, n, k * n + c, w)
    ensures (k * n + c) / n == k && (k * n + c) % n == c
  {
    ColumnCells(g, n, c);
    IndexOfCell(k, c, n);
    var col := Columns(g, n)[c];
    forall t | 0 <= t < |w|
      ensures k * n + c + t * n < |g| && g[k * n + c + t * n] == w[t]
    {
      assert col[k + t] == w[t];
      IndexOfCell(k + t, c, n);
      MulAdd(k, t, n);
    }
  }

  /** `bruteforceCheck(w)` holds exactly when `w` is spelled by a rightward or
      a downward run somewhere in the grid. */
  lemma BruteforceRuns(g: string, n: nat, w: string)
    requires |g| == n * n
    ensures BruteforceCheck(g, n, w) <==>
              (exists i :: RightRunAt(g, n, i, w)) || (exists i :: DownRunAt(g, n, i, w))
  {
    if BruteforceCheck(g, n, w) {
      BruteforceHasRun(g, n, w);
    }
    if i :| RightRunAt(g, n, i, w) {
      RightRunInRow(g, n, i, w);
      RunsAreFound(g, n, w, i / n, i % n);
    } else if i :| DownRunAt(g, n, i, w) {
      DownRunInColumn(g, n, i, w);
      RunsAreFound(g, n, w, n + i % n, i / n);
    }
  }

  lemma BruteforceHasRun(g: string, n: nat, w: string)
    requires |g| == n * n && BruteforceCheck(g, n, w)
    ensures (exists i :: RightRunAt(g, n, i, w)) || (exists i :: DownRunAt(g, n, i, w))
  {
    var options := Rows(g, n) + Columns(g, n);
    var t :| 0 <= t < |options| && Contains(options[t], w);
    var k :| 0 <= k <= |options[t]| && OccursAt(w, options[t], k);
    if |w| == 0 {
      assert |options| == 2 * n;
      EmptyRun(g, n, w);
    } else if t < n {
      RowOccurrenceRun(g, n, t, k, w);
    } else {
      ColumnOccurrenceRun(g, n, t - n, k, w);
    }
  }

  /** On a non-empty grid the empty word is a rightward run from cell 0. */
  lemma EmptyRun(g: string, n: nat, w: string)
    requires |g| == n * n && 0 < n && |w| == 0
    ensures RightRunAt(g, n, 0, w)
  {
    MulLe(1, n, n);
  }

  lemma RunsAreFound(g: string, n: nat, w: string, t: int, k: int)
    requires |g| == n * n
    requires 0 <= t < |Rows(g, n) + Columns(g, n)|
    requires OccursAt(w, (Rows(g, n) + Columns(g, n))[t], k)
    ensures BruteforceCheck(g, n, w)
  {
  }

  // ---------------------------------------------------------------------
  // The indexed lookup in terms of runs

  /** A downward candidate at flat index i for a word of length `len` passes
      the fit test of `rule`, given that the run itself stays in the grid. */
  predicate DownAccepted(n: nat, i: int, len: nat, rule: DownFit)
  {
    rule == Corrected || i + len * n <= n * n
  }

  /** For a rightward candidate whose prefix matches, the loop accepts it
      exactly when the whole word is a rightward run there. */
  lemma AcceptsRight(g: string, n: nat, w: string, i: int, rule: DownFit)
    requires |g| == n * n && RightRunAt(g, n, i, Prefix(w))
    ensures Accepts(g, n, w, Location(i, 1), rule) <==> RightRunAt(g, n, i, w)
  {
    var p := Prefix(w);
    CellOfIndex(i, n);
    if i % n + |w| <= n {
      MulLe(i / n + 1, n, n);
      StepShift(i / n, n);
      SliceExact(g, i + |p|, i + |w|, 1, |w| - |p|);
      var rest := Slice(g, i + |p| * 1, i + |w| * 1, 1);
      if w[|p|..] == rest {
        forall k | 0 <= k < |w|
          ensures i + k < |g| && g[i + k] == w[k]
        {
          if k >= |p| {
            assert w[k] == w[|p|..][k - |p|];
          } else {
            assert p[k] == w[k];
          }
        }
      }
      if RightRunAt(g, n, i, w) {
        assert w[|p|..] == rest;
      }
    }
  }

  /** For a downward candidate whose prefix matches, the loop accepts it
      exactly when the whole word is a downward run there that passes the
      fit test of `rule`. */
  lemma AcceptsDown(g: string, n: nat, w: string, i: int, rule: DownFit)
    requires |g| == n * n && n != 1 && 0 < |w|
    requires DownRunAt(g, n, i, Prefix(w))
    ensures Accepts(g, n, w, Location(i, n), rule) <==> DownRunAt(g, n, i, w) && DownAccepted(n, i, |w|, rule)
  {
    var p := Prefix(w);
    CellOfIndex(i, n);
    StepShift(|w| - 1, n);
    DownSpan(i, n, |w|);
    var fits := if rule == AsWritten then i + |w| * n <= |g| else i / n + |w| <= n;
    if fits {
      DownRemainderMatches(g, n, w, i);
    }
  }

  /** For a downward run of the prefix from cell i, with room below for the
      whole word, the remainder comparison succeeds exactly when the whole
      word is spelled downward. */
  lemma DownRemainderMatches(g: string, n: nat, w: string, i: int)
    requires |g| == n * n && 0 < n && i / n + |w| <= n
    requires DownRunAt(g, n, i, Prefix(w))
    ensures 0 <= i + |Prefix(w)| * n
    ensures w[|Prefix(w)|..] == Slice(g, i + |Prefix(w)| * n, i + |w| * n, n) <==> DownRunAt(g, n, i, w)
  {
    var p := Prefix(w);
    MulLe(0, |p|, n);
    if |w| > 0 {
      DownFullRun(g, n, w, i);
      var full := Slice(g, i, i + |w| * n, n);
      var rest := Slice(g, i + |p| * n, i + |w| * n, n);
      assert full == p + rest;
      assert w == p + w[|p|..];
    }
  }

  /** The whole downward slice from cell i, of the word's length, starts with
      the prefix and continues with the remainder the loop compares; it is
      the only downward run of that length from i. */
  lemma DownFullRun(g: string, n: nat, w: string, i: int)
    requires |g| == n * n && 0 < n && 0 < |w| && i / n + |w| <= n
    requires DownRunAt(g, n, i, Prefix(w))
    ensures 0 <= i + |Prefix(w)| * n
    ensures Slice(g, i, i + |w| * n, n) == Prefix(w) + Slice(g, i + |Prefix(w)| * n, i + |w| * n, n)
    ensures DownRunAt(g, n, i, Slice(g, i, i + |w| * n, n))
    ensures forall s :: DownRunAt(g, n, i, s) && |s| == |w| ==> s == Slice(g, i, i + |w| * n, n)
  {
    DownSliceRun(g, n, i, |w|);
    DownPrefixSplit(g, n, w, i);
  }

  /** The downward slice of the word's length splits at the prefix length. */
  lemma DownPrefixSplit(g: string, n: nat, w: string, i: int)
    requires |g| == n * n && 0 < n && 0 < |w| && i / n + |w| <= n
    requires DownRunAt(g, n, i, Prefix(w))
    ensures 0 <= i + |Prefix(w)| * n
    ensures Slice(g, i, i + |w| * n, n) == Prefix(w) + Slice(g, i + |Prefix(w)| * n, i + |w| * n, n)
  {
    var p := Prefix(w);
    MulLe(0, |p|, n);
    var full := Slice(g, i, i + |w| * n, n);
    assert |full| == |w| && DownRunAt(g, n, i, full) by {
      DownSliceRun(g, n, i, |w|);
    }
    SliceDrop(g, i, i + |w| * n, n, |p|);
    DownRunsAgree(g, n, i, p, full);
    assert full == full[..|p|] + full[|p|..];
  }

  /** Two downward runs from one cell agree on the shorter one's length. */
  lemma DownRunsAgree(g: string, n: nat, i: int, short: string, long: string)
    requires DownRunAt(g, n, i, short) && DownRunAt(g, n, i, long) && |short| <= |long|
    ensures long[..|short|] == short
  {
    forall k | 0 <= k < |short|
      ensures long[k] == short[k]
    {
      assert long[k] == g[i + k * n];
    }
  }

  /** An accepted candidate filed under the prefix makes the lookup succeed. */
  lemma AcceptedIsFound(g: string, n: nat, w: string, loc: Location, rule: DownFit)
    requires |g| == n * n
    requires IndexedRun(g, n, Prefix(w), loc)
    requires Accepts(g, n, w, loc, rule)
    ensures LookupWith(g, n, w, rule)
  {
    var m := StringLookup(g, n);
    StringLookupExact(g, n);
    var k :| 0 <= k < |m[Prefix(w)]| && m[Prefix(w)][k] == loc;
  }

  /** What the indexed lookup finds: a non-empty word that is a rightward run,
      or a downward run passing the down-fit test of `rule`. */
  lemma LookupRuns(g: string, n: nat, w: string, rule: DownFit)
    requires |g| == n * n
    ensures LookupWith(g, n, w, rule) <==>
              0 < |w| && ((exists i :: RightRunAt(g, n, i, w))
                          || (exists i :: DownRunAt(g, n, i, w) && DownAccepted(n, i, |w|, rule)))
  {
    if LookupWith(g, n, w, rule) {
      LookupFindsRun(g, n, w, rule);
    }
    if 0 < |w| {
      var p := Prefix(w);
      if i :| RightRunAt(g, n, i, w) {
        RightRunIsFound(g, n, w, i, rule);
      } else if i :| DownRunAt(g, n, i, w) && DownAccepted(n, i, |w|, rule) {
        if |w| == 1 {
          assert RightRunAt(g, n, i, w);
          RightRunIsFound(g, n, w, i, rule);
        } else {
          assert p[..] == w[..|p|];
          assert DownRunAt(g, n, i, p);
          AcceptsDown(g, n, w, i, rule);
          AcceptedIsFound(g, n, w, Location(i, n), rule);
        }
      }
    }
  }

  lemma RightRunIsFound(g: string, n: nat, w: string, i: int, rule: DownFit)
    requires |g| == n * n && 0 < |w| && RightRunAt(g, n, i, w)
    ensures LookupWith(g, n, w, rule)
  {
    var p := Prefix(w);
    PrefixRightRun(g, n, i, w, p);
    AcceptsRight(g, n, w, i, rule);
    AcceptedIsFound(g, n, w, Location(i, 1), rule);
  }

  /** A leading part of a rightward run is a rightward run from the same cell. */
  lemma PrefixRightRun(g: string, n: nat, i: int, w: string, p: string)
    requires RightRunAt(g, n, i, w) && |p| <= |w| && p == w[..|p|]
    ensures RightRunAt(g, n, i, p)
  {
    if |p| > 0 {
      assert i + (|p| - 1) < |g| && g[i + (|p| - 1)] == w[|p| - 1];
    }
    forall k | 0 <= k < |p|
      ensures g[i + k] == p[k]
    {
      assert p[k] == w[k];
    }
  }

  lemma LookupFindsRun(g: string, n: nat, w: string, rule: DownFit)
    requires |g| == n * n && LookupWith(g, n, w, rule)
    ensures 0 < |w|
    ensures (exists i :: RightRunAt(g, n, i, w)) || (exists i :: DownRunAt(g, n, i, w) && DownAccepted(n, i, |w|, rule))
  {
    var m := StringLookup(g, n);
    var p := Prefix(w);
    StringLookupExact(g, n);
    var locs := m[p];
    assert forall t :: 0 <= t < |locs| ==> IndexedRun(g, n, p, locs[t]);
    var k :| 0 <= k < |locs| && Accepts(g, n, w, locs[k], rule);
    var loc := locs[k];
    if loc.offset == 1 && RightRunAt(g, n, loc.index, p) {
      AcceptsRight(g, n, w, loc.index, rule);
    } else {
      assert loc == Location(loc.index, n);
      AcceptsDown(g, n, w, loc.index, rule);
    }
  }

  // ---------------------------------------------------------------------
  // Agreement with the brute-force check

  /** The down-fit test as written, `index + len*N <= len(grid)`, passes for a
      run that stays in the grid exactly when the run ends above the last row
      or starts in column 0. */
  lemma AsWrittenDownFit(n: nat, i: int, len: nat)
    requires 0 <= i < n * n && i / n + len <= n
    ensures DownAccepted(n, i, len, AsWritten) <==> i / n + len < n || i % n == 0
  {
    CellOfIndex(i, n);
    var r, c := i / n, i % n;
    MulAdd(r, len, n);
    assert i + len * n == (r + len) * n + c;
    if r + len < n {
      MulLe(r + len + 1, n, n);
      StepShift(r + len, n);
    }
  }

  /** What `is_present` finds: a non-empty word spelled rightward somewhere,
      or spelled downward by a run that ends above the last row or starts in
      column 0. */
  lemma AsWrittenLookupRuns(g: string, n: nat, w: string)
    requires |g| == n * n
    ensures LookupWith(g, n, w, AsWritten) <==>
              0 < |w| && ((exists i :: RightRunAt(g, n, i, w))
                          || (exists i :: DownRunAt(g, n, i, w) && (i / n + |w| < n || i % n == 0)))
  {
    LookupRuns(g, n, w, AsWritten);
    forall i | DownRunAt(g, n, i, w)
      ensures DownAccepted(n, i, |w|, AsWritten) <==> i / n + |w| < n || i % n == 0
    {
      AsWrittenDownFit(n, i, |w|);
    }
  }

  /** Soundness: whatever the down-fit rule, a word the lookup finds is
      found by `bruteforceCheck`. */
  lemma LookupSound(g: string, n: nat, w: string, rule: DownFit)
    requires |g| == n * n && LookupWith(g, n, w, rule)
    ensures BruteforceCheck(g, n, w)
  {
    LookupRuns(g, n, w, rule);
    BruteforceRuns(g, n, w);
  }

  /** Row completeness: a non-empty word inside some row is found. */
  lemma LookupFindsRowWords(g: string, n: nat, w: string, r: int, k: int)
    requires |g| == n * n && 0 < |w| && 0 <= r < n
    requires OccursAt(w, Rows(g, n)[r], k)
    ensures LookupWith(g, n, w, AsWritten)
  {
    RowOccurrenceRun(g, n, r, k, w);
    LookupRuns(g, n, w, AsWritten);
  }

  /** Column completeness where it holds: a non-empty word read down column c
      from row r is found when it ends above the last row or c is 0. */
  lemma LookupFindsColumnWords(g: string, n: nat, w: string, c: int, r: int)
    requires |g| == n * n && 0 < |w| && 0 <= c < n
    requires OccursAt(w, Columns(g, n)[c], r)
    requires r + |w| < n || c == 0
    ensures LookupWith(g, n, w, AsWritten)
  {
    ColumnOccurrenceRun(g, n, c, r, w);
    AsWrittenLookupRuns(g, n, w);
  }

  /** Exactly when `is_present` and `bruteforceCheck` disagree on a non-empty
      word: the word is spelled somewhere, but never rightward, and every
      downward run of it ends on the last row in a column other than 0. */
  lemma AsWrittenDisagreement(g: string, n: nat, w: string)
    requires |g| == n * n && 0 < |w|
    ensures (BruteforceCheck(g, n, w) && !LookupWith(g, n, w, AsWritten)) <==>
              && (exists i :: DownRunAt(g, n, i, w))
              && (forall i :: !RightRunAt(g, n, i, w))
              && (forall i :: DownRunAt(g, n, i, w) ==> i / n + |w| == n && 0 < i % n)
  {
    BruteforceRuns(g, n, w);
    AsWrittenLookupRuns(g, n, w);
  }

  /** With the corrected down-fit test the lookup agrees with
      `bruteforceCheck` on every non-empty word. */
  lemma CorrectedLookupAgrees(g: string, n: nat, w: string)
    requires |g| == n * n
    ensures LookupWith(g, n, w, Corrected) <==> 0 < |w| && BruteforceCheck(g, n, w)
  {
    LookupRuns(g, n, w, Corrected);
    BruteforceRuns(g, n, w);
  }

  /** The empty word: no key matches it, while `bruteforceCheck` finds it in
      any grid with at least one row. */
  lemma EmptyWord(g: string, n: nat, rule: DownFit)
    requires |g| == n * n
    ensures !LookupWith(g, n, "", rule)
    ensures BruteforceCheck(g, n, "") <==> 0 < n
  {
    LookupRuns(g, n, "", rule);
    BruteforceRuns(g, n, "");
    if 0 < n {
      MulLe(1, n, n);
      assert RightRunAt(g, n, 0, "");
    }
  }

  /** A word longer than a side is found by neither check. */
  lemma LongWord(g: string, n: nat, w: string, rule: DownFit)
    requires |g| == n * n && n < |w|
    ensures !BruteforceCheck(g, n, w) && !LookupWith(g, n, w, rule)
  {
    LookupRuns(g, n, w, rule);
    BruteforceRuns(g, n, w);
    forall i | RightRunAt(g, n, i, w)
      ensures false
    {
      CellOfIndex(i, n);
    }
    forall i | DownRunAt(g, n, i, w)
      ensures false
    {
      CellOfIndex(i, n);
    }
  }
}
