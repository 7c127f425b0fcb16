/** The solver's substring index (`stringLookup`): every rightward run of 1 to
    6 cells that stays inside its row, and every downward run of 2 to 6 cells
    that stays inside the grid, keyed by the letters it spells. */
module SubstringIndex {
  import opened Arith
  import opened PySlice
  import opened Grid

  /** One insertion into the index: a key and the location it is filed under. */
  datatype Entry = Entry(key: string, loc: Location)

  /** What the index promises about a location filed under key `s`: a run of
      |s| cells from `loc.index`, stepping by `loc.offset`, spells `s`. */
  predicate IndexedRun(g: string, n: nat, s: string, loc: Location)
  {
    && 1 <= |s| <= HashLength
    && ((loc.offset == 1 && RightRunAt(g, n, loc.index, s))
        || (loc.offset == n && 2 <= |s| && DownRunAt(g, n, loc.index, s)))
  }

  /** The insertions made for cell `i`, in the source's order: the cell's own
      letter, then the right strings of length 2..maxRight, then the down
      strings of length 2..maxDown. */
  function CellEntries(g: string, n: nat, i: int): seq<Entry>
    requires |g| == n * n && 0 <= i < |g|
  {
    [Entry([g[i]], Location(i, 1))] + RightEntries(g, n, i) + DownEntries(g, n, i)
  }

  /** The insertions made for cells 0 .. count-1, in order. */
  function AllEntries(g: string, n: nat, count: nat): seq<Entry>
    requires |g| == n * n && count <= |g|
  {
    if count == 0 then [] else AllEntries(g, n, count - 1) + CellEntries(g, n, count - 1)
  }

  /** Appends `loc` to the list filed under `key`, creating the list if needed. */
  function Append(m: map<string, seq<Location>>, key: string, loc: Location): map<string, seq<Location>>
  {
    m[key := (if key in m then m[key] else []) + [loc]]
  }

  /** Replays a sequence of insertions into an empty index. */
  function Build(es: seq<Entry>): map<string, seq<Location>>
  {
    if es == [] then map[]
    else Append(Build(es[..|es| - 1]), es[|es| - 1].key, es[|es| - 1].loc)
  }

  /** The index of a grid (WordsearchSolver.py `stringLookup`). */
  function StringLookup(g: string, n: nat): map<string, seq<Location>>
    requires |g| == n * n
  {
    Build(AllEntries(g, n, |g|))
  }

  /** The replayed index files exactly the inserted pairs, and has no key
      with an empty list. */
  lemma {:induction false} BuildFiles(es: seq<Entry>)
    ensures forall s :: s in Build(es) ==> Build(es)[s] != []
    ensures forall s, loc :: (s in Build(es) && loc in Build(es)[s]) <==> Entry(s, loc) in es
  {
    if es != [] {
      var init := es[..|es| - 1];
      BuildFiles(init);
      assert es == init + [es[|es| - 1]];
    }
  }

  /** The right strings of cell i, as inserted. */
  function RightEntries(g: string, n: nat, i: int): seq<Entry>
    requires |g| == n * n && 0 <= i < |g|
  {
    CellOfIndex(i, n);
    var maxRight := Min(HashLength, n - i % n);
    seq(maxRight - 1, k requires 0 <= k < maxRight - 1 => Entry(Slice(g, i, i + (k + 2), 1), Location(i, 1)))
  }

  /** The down strings of cell i, as inserted. */
  function DownEntries(g: string, n: nat, i: int): seq<Entry>
    requires |g| == n * n && 0 <= i < |g|
  {
    CellOfIndex(i, n);
    var maxDown := Min(HashLength, n - i / n);
    seq(maxDown - 1, k requires 0 <= k < maxDown - 1 => Entry(Slice(g, i, i + (k + 2) * n, n), Location(i, n)))
  }

  /** Every insertion made for cell i files an indexed run starting at i. */
  lemma CellEntriesSound(g: string, n: nat, i: int, e: Entry)
    requires |g| == n * n && 0 <= i < |g|
    requires e in CellEntries(g, n, i)
    ensures e.loc.index == i && IndexedRun(g, n, e.key, e.loc)
  {
    CellOfIndex(i, n);
    var right, down := RightEntries(g, n, i), DownEntries(g, n, i);
    assert CellEntries(g, n, i) == [Entry([g[i]], Location(i, 1))] + right + down;
    if e in right {
      RightEntriesSound(g, n, i, e);
    } else if e in down {
      DownEntriesSound(g, n, i, e);
    }
  }

  lemma RightEntriesSound(g: string, n: nat, i: int, e: Entry)
    requires |g| == n * n && 0 <= i < |g|
    requires e in RightEntries(g, n, i)
    ensures e.loc.index == i && IndexedRun(g, n, e.key, e.loc)
  {
    CellOfIndex(i, n);
    var right := RightEntries(g, n, i);
    var k :| 0 <= k < |right| && right[k] == e;
    RightSliceRun(g, n, i, k + 2);
  }

  lemma DownEntriesSound(g: string, n: nat, i: int, e: Entry)
    requires |g| == n * n && 0 <= i < |g|
    requires e in DownEntries(g, n, i)
    ensures e.loc.index == i && IndexedRun(g, n, e.key, e.loc)
  {
    CellOfIndex(i, n);
    var down := DownEntries(g, n, i);
    var k :| 0 <= k < |down| && down[k] == e;
    assert k + 2 <= HashLength && k + 2 <= n - i / n;
    var key := Slice(g, i, i + (k + 2) * n, n);
    assert e == Entry(key, Location(i, n));
    DownSliceRun(g, n, i, k + 2);
  }

  /** Every indexed run starting at cell i is among cell i's insertions. */
  lemma CellEntriesComplete(g: string, n: nat, i: int, s: string, loc: Location)
    requires |g| == n * n && 0 <= i < |g|
    requires loc.index == i && IndexedRun(g, n, s, loc)
    ensures Entry(s, loc) in CellEntries(g, n, i)
  {
    CellOfIndex(i, n);
    var right, down := RightEntries(g, n, i), DownEntries(g, n, i);
    assert CellEntries(g, n, i) == [Entry([g[i]], Location(i, 1))] + right + down;
    if loc.offset == 1 && RightRunAt(g, n, i, s) {
      if |s| == 1 {
        assert s == [g[i]];
      } else {
        RightSliceRun(g, n, i, |s|);
        assert right[|s| - 2] == Entry(s, loc);
      }
    } else {
      DownSliceRun(g, n, i, |s|);
      assert down[|s| - 2] == Entry(s, loc);
    }
  }

  /** The right string `g[i:i+j]` of a cell is the rightward run of length j. */
  lemma RightSliceRun(g: string, n: nat, i: int, j: nat)
    requires |g| == n * n && 0 <= i < |g|
    requires 1 <= j <= n - i % n
    ensures |Slice(g, i, i + j, 1)| == j && RightRunAt(g, n, i, Slice(g, i, i + j, 1))
    ensures forall s :: RightRunAt(g, n, i, s) && |s| == j ==> s == Slice(g, i, i + j, 1)
  {
    CellOfIndex(i, n);
    MulLe(i / n + 1, n, n);
    StepShift(i / n, n);
    SliceExact(g, i, i + j, 1, j);
  }

  /** The down string `g[i:i+j*N:N]` of a cell is the downward run of length j. */
  lemma DownSliceRun(g: string, n: nat, i: int, j: nat)
    requires |g| == n * n && 0 <= i < |g|
    requires 1 <= j <= n - i / n
    ensures |Slice(g, i, i + j * n, n)| == j && DownRunAt(g, n, i, Slice(g, i, i + j * n, n))
    ensures forall s :: DownRunAt(g, n, i, s) && |s| == j ==> s == Slice(g, i, i + j * n, n)
  {
    DownSpan(i, n, j);
    StepShift(j - 1, n);
    SliceExact(g, i, i + j * n, n, j);
  }

  /** The insertions for cells 0 .. count-1 are exactly the indexed runs
      starting at those cells. */
  lemma {:induction false} AllEntriesExact(g: string, n: nat, count: nat, s: string, loc: Location)
    requires |g| == n * n && count <= |g|
    ensures Entry(s, loc) in AllEntries(g, n, count) <==> 0 <= loc.index < count && IndexedRun(g, n, s, loc)
  {
    if count > 0 {
      AllEntriesExact(g, n, count - 1, s, loc);
      CellEntriesExact(g, n, count - 1, s, loc);
      assert AllEntries(g, n, count) == AllEntries(g, n, count - 1) + CellEntries(g, n, count - 1);
    }
  }

  /** The insertions for cell i are exactly the indexed runs starting at i. */
  lemma CellEntriesExact(g: string, n: nat, i: int, s: string, loc: Location)
    requires |g| == n * n && 0 <= i < |g|
    ensures Entry(s, loc) in CellEntries(g, n, i) <==> loc.index == i && IndexedRun(g, n, s, loc)
  {
    if Entry(s, loc) in CellEntries(g, n, i) {
      CellEntriesSound(g, n, i, Entry(s, loc));
    }
    if loc.index == i && IndexedRun(g, n, s, loc) {
      CellEntriesComplete(g, n, i, s, loc);
    }
  }

  /** Soundness and completeness of the index: `loc` is filed under `s`
      exactly when the |s| cells from `loc.index`, stepping by `loc.offset`
      (1 inside one row, N inside the grid), spell `s` and 1 <= |s| <= 6
      (2 <= |s| for downward runs). No key has an empty list. */
  lemma StringLookupExact(g: string, n: nat)
    requires |g| == n * n
    ensures forall s :: s in StringLookup(g, n) ==> StringLookup(g, n)[s] != []
    ensures forall s, loc :: (s in StringLookup(g, n) && loc in StringLookup(g, n)[s]) <==> IndexedRun(g, n, s, loc)
  {
    var es := AllEntries(g, n, |g|);
    BuildFiles(es);
    forall s, loc
      ensures Entry(s, loc) in es <==> IndexedRun(g, n, s, loc)
    {
      AllEntriesExact(g, n, |g|, s, loc);
    }
  }

  /** Every location in the index is a valid start cell with offset 1 or N. */
  lemma StringLookupLocations(g: string, n: nat)
    requires |g| == n * n
    ensures forall s, loc :: s in StringLookup(g, n) && loc in StringLookup(g, n)[s] ==>
              0 < n && 0 <= loc.index < |g| && (loc.offset == 1 || loc.offset == n) && 1 <= |s| <= HashLength
  {
    StringLookupExact(g, n);
  }
}
