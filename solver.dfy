/**
 * The solver object: a 9x9 grid and three 9x9 tag tables, updated in place
 * by hidden-single deduction and then by depth-first backtracking.  The
 * arrays are read into the values of the Rules and TagTables modules to
 * state what each operation does.
 */
module Solver {
  import opened Rules
  import opened SearchOrder
  import opened TagTables

  /** The contents of a 9x9 array, row by row. */
  ghost function Snapshot<T>(a: array2<T>): (s: seq<seq<T>>)
    reads a
    requires a.Length0 == 9 && a.Length1 == 9
    ensures |s| == 9 && forall r :: 0 <= r < 9 ==> |s[r]| == 9
    ensures forall r, c :: 0 <= r < 9 && 0 <= c < 9 ==> s[r][c] == a[r, c]
  {
    seq(9, r requires 0 <= r < 9 reads a => seq(9, c requires 0 <= c < 9 reads a => a[r, c]))
  }

  /**
   * What a scan of group g for digit v reports: no candidate cell (cnt is 0),
   * exactly one, at (row, col) (cnt is 1), or at least two (cnt is 2, where
   * the scan stops).
   */
  ghost predicate ScanOutcome(G: Board, g: Group, v: int, cnt: int, row: int, col: int)
    requires IsBoard(G) && ValidGroup(g)
  {
    (cnt == 0 && forall r, c :: InBoard(r, c) && InGroup(g, r, c) ==> !Candidate(G, r, c, v)) ||
    (cnt == 1 && SoleCandidate(G, g, v, row, col)) ||
    (cnt == 2 && exists r1, c1, r2, c2 ::
      InBoard(r1, c1) && InBoard(r2, c2) && (r1, c1) != (r2, c2) &&
      InGroup(g, r1, c1) && InGroup(g, r2, c2) && Candidate(G, r1, c1, v) && Candidate(G, r2, c2, v))
  }

  /** A scan that reports no candidate, or two, has found no hidden single. */
  lemma ScanFindsNoSingle(G: Board, g: Group, v: int, cnt: int, row: int, col: int)
    requires IsBoard(G) && ValidGroup(g) && ScanOutcome(G, g, v, cnt, row, col) && cnt != 1
    ensures NoSingle(G, g, v)
  {
    if cnt == 2 {
      var r1, c1, r2, c2 :| InBoard(r1, c1) && InBoard(r2, c2) && (r1, c1) != (r2, c2) &&
        InGroup(g, r1, c1) && InGroup(g, r2, c2) && Candidate(G, r1, c1, v) && Candidate(G, r2, c2, v);
    }
  }

  /** No block has a hidden single, for any digit. */
  ghost predicate BlocksSettled(G: Board)
    requires IsBoard(G)
  {
    forall k, v :: 0 <= k < 9 && 1 <= v <= 9 ==> NoSingle(G, Box(k), v)
  }

  /** No row has a hidden single among the digits 1 to 8. */
  ghost predicate RowsSettled(G: Board)
    requires IsBoard(G)
  {
    forall x, v :: 0 <= x < 9 && 1 <= v <= 8 ==> NoSingle(G, Row(x), v)
  }

  /** No column has a hidden single among the digits 1 to 8. */
  ghost predicate ColumnsSettled(G: Board)
    requires IsBoard(G)
  {
    forall x, v :: 0 <= x < 9 && 1 <= v <= 8 ==> NoSingle(G, Col(x), v)
  }

  /**
   * After a failed descent with val at the empty cell (i, j): clearing val's
   * tags gives back the tables of G0, and no solution of G0 has val there.
   */
  lemma ChildExit(G0: Board, i: int, j: int, val: int)
    requires IsBoard(G0) && InBoard(i, j) && G0[i][j] == 0 && 1 <= val <= 9
    requires Clear(TagsOf(G0), i, j, val) && !Solvable(Place(G0, i, j, val))
    ensures Marked(TagsOf(Place(G0, i, j, val)), i, j, val, false) == TagsOf(G0)
    ensures forall T :: IsSolution(T) && Extends(T, G0) ==> T[i][j] != val
  {
    ClearMeansFree(G0, i, j, val);
    TagsOfUnplace(G0, i, j, val);
    PlaceUnsolvable(G0, i, j, val);
  }

  class SudokuSolver {
    /** The grid being solved; 0 marks an empty cell. */
    const problemMatrix: array2<int>
    /** tagRow[r, d]: digit d + 1 is used in row r. */
    const tagRow: array2<bool>
    /** tagCol[d, c]: digit d + 1 is used in column c. */
    const tagCol: array2<bool>
    /** tagBlk[b, d]: digit d + 1 is used in block b. */
    const tagBlk: array2<bool>
    /** Whether construction found a solution; the process exits instead when it does not. */
    var solved: bool

    ghost predicate Shape() {
      problemMatrix.Length0 == 9 && problemMatrix.Length1 == 9 &&
      tagRow.Length0 == 9 && tagRow.Length1 == 9 &&
      tagCol.Length0 == 9 && tagCol.Length1 == 9 &&
      tagBlk.Length0 == 9 && tagBlk.Length1 == 9 &&
      tagRow != tagCol && tagRow != tagBlk && tagCol != tagBlk
    }

    /** The grid as a board value. */
    ghost function Board(): (G: Board)
      reads problemMatrix
      requires Shape()
      ensures IsBoard(G)
    {
      Snapshot(problemMatrix)
    }

    /** The tag tables as a value. */
    ghost function CurrentTags(): (t: Tags)
      reads tagRow, tagCol, tagBlk
      requires Shape()
      ensures WellFormed(t)
    {
      Tags(Snapshot(tagRow), Snapshot(tagCol), Snapshot(tagBlk))
    }

    /**
     * The object invariant between operations: every cell is empty or holds
     * a digit, no group repeats a digit, and the tags record exactly the
     * digits each group holds.
     */
    ghost predicate Valid()
      reads problemMatrix, tagRow, tagCol, tagBlk
    {
      Shape() && InRange(Board()) && NoConflict(Board()) && CurrentTags() == TagsOf(Board())
    }

    /**
     * Builds the solver from an input grid: entries outside 1..9 are taken
     * as empty, the tags are filled from the givens, and the puzzle is
     * solved.  On success the solution is written back into the input.
     */
    constructor (inputMatrix: array2<int>)
      requires inputMatrix.Length0 == 9 && inputMatrix.Length1 == 9
      requires NoConflict(Filtered(Snapshot(inputMatrix)))
      modifies inputMatrix
      ensures Valid()
      ensures solved == Solvable(Filtered(old(Snapshot(inputMatrix))))
      ensures solved ==> IsFirstSolution(Board(), Filtered(old(Snapshot(inputMatrix))))
      ensures solved ==> Snapshot(inputMatrix) == Board()
      ensures !solved ==> Snapshot(inputMatrix) == old(Snapshot(inputMatrix))
    {
      problemMatrix := new int[N, N];
      tagRow := new bool[N, N];
      tagCol := new bool[N, N];
      tagBlk := new bool[N, N];
      new;
      InitTag();
      InitPuzzle();
      LoadGivens(inputMatrix);
      FillTags();
      solved := SolvePuzzle();
      if solved {
        StoreSolution(inputMatrix);
      }
    }

    /** Copies the entries of the input that are digits 1 to 9 into the empty grid. */
    method LoadGivens(inputMatrix: array2<int>)
      requires Shape() && inputMatrix.Length0 == 9 && inputMatrix.Length1 == 9
      requires inputMatrix != problemMatrix
      requires forall r, c :: InBoard(r, c) ==> problemMatrix[r, c] == 0
      modifies problemMatrix
      ensures Board() == Filtered(Snapshot(inputMatrix))
    {
      ghost var F := Filtered(Snapshot(inputMatrix));
      for j := 0 to N
        invariant forall r, c :: InBoard(r, c) ==> problemMatrix[r, c] == if r < j then F[r][c] else 0
      {
        for k := 0 to N
          invariant forall r, c :: InBoard(r, c) ==>
            problemMatrix[r, c] == if r < j || (r == j && c < k) then F[r][c] else 0
        {
          assert F[j][k] == Filter(inputMatrix[j, k]);
          if inputMatrix[j, k] < 1 || inputMatrix[j, k] > N {
            continue;
          }
          problemMatrix[j, k] := inputMatrix[j, k];
        }
      }
      SameBoard(Board(), F);
    }

    /** Copies the grid back into the input. */
    method StoreSolution(inputMatrix: array2<int>)
      requires Shape() && inputMatrix.Length0 == 9 && inputMatrix.Length1 == 9
      requires inputMatrix != problemMatrix
      modifies inputMatrix
      ensures Snapshot(inputMatrix) == Board()
    {
      for j := 0 to N
        invariant forall r, c :: InBoard(r, c) && r < j ==> inputMatrix[r, c] == problemMatrix[r, c]
      {
        for k := 0 to N
          invariant forall r, c :: InBoard(r, c) && (r < j || (r == j && c < k)) ==>
            inputMatrix[r, c] == problemMatrix[r, c]
        {
          inputMatrix[j, k] := problemMatrix[j, k];
        }
      }
      SameBoard(Snapshot(inputMatrix), Board());
    }

    /** Clears every tag. */
    method InitTag()
      requires Shape()
      modifies tagRow, tagCol, tagBlk
      ensures CurrentTags() == NoTags()
    {
      for j := 0 to N
        invariant forall x, y :: 0 <= x < j && 0 <= y < 9 ==> !tagRow[x, y] && !tagCol[x, y] && !tagBlk[x, y]
      {
        for k := 0 to N
          invariant forall x, y :: 0 <= x < 9 && 0 <= y < 9 && (x < j || (x == j && y < k)) ==>
            !tagRow[x, y] && !tagCol[x, y] && !tagBlk[x, y]
        {
          tagRow[j, k] := false;
          tagCol[j, k] := false;
          tagBlk[j, k] := false;
        }
      }
      SameTags(CurrentTags(), NoTags());
    }

    /** Empties every cell. */
    method InitPuzzle()
      requires Shape()
      modifies problemMatrix
      ensures forall r, c :: InBoard(r, c) ==> problemMatrix[r, c] == 0
    {
      for j := 0 to N
        invariant forall r, c :: InBoard(r, c) && r < j ==> problemMatrix[r, c] == 0
      {
        for k := 0 to N
          invariant forall r, c :: InBoard(r, c) && (r < j || (r == j && c < k)) ==> problemMatrix[r, c] == 0
        {
          problemMatrix[j, k] := 0;
        }
      }
    }

    /** Sets the tags of every given, cell by cell in row-major order. */
    method FillTags()
      requires Shape() && InRange(Board()) && CurrentTags() == NoTags()
      modifies tagRow, tagCol, tagBlk
      ensures CurrentTags() == TagsOf(Board())
    {
      ghost var G := Board();
      TagsOfNothing(G);
      for i := 0 to N
        invariant CurrentTags() == TagsOf(Upto(G, 9 * i))
      {
        FillRowTags(G, i);
      }
      UptoAll(G);
    }

    /** The inner loop of FillTags: sets the tags of the givens of row i. */
    method FillRowTags(ghost G: Board, i: int)
      requires Shape() && IsBoard(G) && InRange(G) && 0 <= i < 9
      requires forall r, c :: InBoard(r, c) ==> problemMatrix[r, c] == G[r][c]
      requires CurrentTags() == TagsOf(Upto(G, 9 * i))
      modifies tagRow, tagCol, tagBlk
      ensures CurrentTags() == TagsOf(Upto(G, 9 * (i + 1)))
    {
      for j := 0 to N
        invariant CurrentTags() == TagsOf(Upto(G, 9 * i + j))
      {
        var n := problemMatrix[i, j];
        ghost var before := CurrentTags();
        AssignTag(i, j, n);
        TagsOfUptoStep(G, i, j);
        assert CurrentTags() == Marked(before, i, j, G[i][j], true);
      }
      assert 9 * i + 9 == 9 * (i + 1);
    }

    /** Whether digit c may go at (i, j): none of its three tags is set. */
    function CheckValid(i: int, j: int, c: int): (ok: bool)
      reads tagRow, tagCol, tagBlk
      requires Shape() && InBoard(i, j) && 1 <= c <= 9
    {
      var d := c - 1;
      if tagRow[i, d] then false
      else if tagCol[d, j] then false
      else if tagBlk[BlockOf(i, j), d] then false
      else true
    }

    /** CheckValid is the test Clear on the current tag tables. */
    lemma CheckValidIsClear(i: int, j: int, c: int)
      requires Shape() && InBoard(i, j) && 1 <= c <= 9
      ensures CheckValid(i, j, c) == Clear(CurrentTags(), i, j, c)
    {
    }

    /** On a valid solver, CheckValid answers exactly whether c is legal at (i, j). */
    lemma CheckValidMeansFree(i: int, j: int, c: int)
      requires Valid() && InBoard(i, j) && 1 <= c <= 9
      ensures CheckValid(i, j, c) <==> Free(Board(), i, j, c)
    {
      CheckValidIsClear(i, j, c);
      ClearMeansFree(Board(), i, j, c);
    }

    /** Records digit n at (i, j) in its row, column and block tags; 0 records nothing. */
    method AssignTag(i: int, j: int, n: int)
      requires Shape() && InBoard(i, j) && 0 <= n <= 9
      modifies tagRow, tagCol, tagBlk
      ensures CurrentTags() == Marked(old(CurrentTags()), i, j, n, true)
    {
      if n == 0 {
        return;
      }
      ghost var t := CurrentTags();
      var d := n - 1;
      tagRow[i, d] := true;
      tagCol[d, j] := true;
      tagBlk[BlockOf(i, j), d] := true;
      forall x, y | 0 <= x < 9 && 0 <= y < 9
        ensures tagRow[x, y] == Marked(t, i, j, n, true).row[x][y]
        ensures tagCol[x, y] == Marked(t, i, j, n, true).col[x][y]
        ensures tagBlk[x, y] == Marked(t, i, j, n, true).blk[x][y]
      {
        MarkedEntries(t, i, j, n, true, x, y);
      }
      SameTags(CurrentTags(), Marked(t, i, j, n, true));
    }

    /** Clears the row, column and block tags of digit n at (i, j); 0 clears nothing. */
    method ResetTag(i: int, j: int, n: int)
      requires Shape() && InBoard(i, j) && 0 <= n <= 9
      modifies tagRow, tagCol, tagBlk
      ensures CurrentTags() == Marked(old(CurrentTags()), i, j, n, false)
    {
      if n == 0 {
        return;
      }
      ghost var t := CurrentTags();
      var d := n - 1;
      tagRow[i, d] := false;
      tagCol[d, j] := false;
      tagBlk[BlockOf(i, j), d] := false;
      forall x, y | 0 <= x < 9 && 0 <= y < 9
        ensures tagRow[x, y] == Marked(t, i, j, n, false).row[x][y]
        ensures tagCol[x, y] == Marked(t, i, j, n, false).col[x][y]
        ensures tagBlk[x, y] == Marked(t, i, j, n, false).blk[x][y]
      {
        MarkedEntries(t, i, j, n, false, x, y);
      }
      SameTags(CurrentTags(), Marked(t, i, j, n, false));
    }

    /** Deduction, then search from the first cell. */
    method SolvePuzzle() returns (ok: bool)
      requires Valid()
      modifies problemMatrix, tagRow, tagCol, tagBlk
      ensures Valid()
      ensures ok == Solvable(old(Board()))
      ensures ok ==> IsFirstSolution(Board(), old(Board()))
    {
      ghost var G0 := Board();
      SolveLogical();
      ghost var G1 := Board();
      ok := SolveBacktrack(0, 0);
      FirstSolutionOfRefined(G1, G0, Board());
      if ok {
        assert IsSolution(Board()) && Extends(Board(), G1);
      }
    }

    /** The test the scan makes at a cell: it is empty and CheckValid allows l there. */
    predicate Hit(i: int, j: int, l: int)
      reads problemMatrix, tagRow, tagCol, tagBlk
      requires Shape() && InBoard(i, j) && 1 <= l <= 9
    {
      !(problemMatrix[i, j] > 0) && CheckValid(i, j, l)
    }

    /**
     * What a scan of group g for digit l reports in terms of its own test:
     * no cell passes (cnt is 0), exactly (row, col) passes (cnt is 1), or
     * two different cells pass (cnt is 2, where the scan stops).
     */
    ghost predicate ScanReport(g: Group, l: int, cnt: int, row: int, col: int)
      reads problemMatrix, tagRow, tagCol, tagBlk
      requires Shape() && ValidGroup(g) && 1 <= l <= 9
    {
      (cnt == 0 && forall r, c :: InBoard(r, c) && InGroup(g, r, c) ==> !Hit(r, c, l)) ||
      (cnt == 1 && InBoard(row, col) && InGroup(g, row, col) && Hit(row, col, l) &&
        forall r, c :: InBoard(r, c) && InGroup(g, r, c) && Hit(r, c, l) ==> r == row && c == col) ||
      (cnt == 2 && exists r1, c1, r2, c2 ::
        InBoard(r1, c1) && InBoard(r2, c2) && (r1, c1) != (r2, c2) &&
        InGroup(g, r1, c1) && InGroup(g, r2, c2) && Hit(r1, c1, l) && Hit(r2, c2, l))
    }

    /** The positions s < t in cells whose cell passes the scan's test for l. */
    ghost function HitsBefore(cells: seq<(int, int)>, l: int, t: int): seq<int>
      reads problemMatrix, tagRow, tagCol, tagBlk
      requires Shape() && 1 <= l <= 9 && 0 <= t <= |cells|
      requires forall s :: 0 <= s < |cells| ==> InBoard(cells[s].0, cells[s].1)
    {
      if t == 0 then []
      else HitsBefore(cells, l, t - 1) + (if Hit(cells[t - 1].0, cells[t - 1].1, l) then [t - 1] else [])
    }

    /** HitsBefore lists exactly the positions before t that pass the test. */
    lemma {:induction false} HitsBeforeMembers(cells: seq<(int, int)>, l: int, t: int)
      requires Shape() && 1 <= l <= 9 && 0 <= t <= |cells|
      requires forall s :: 0 <= s < |cells| ==> InBoard(cells[s].0, cells[s].1)
      ensures forall s :: s in HitsBefore(cells, l, t) <==> 0 <= s < t && Hit(cells[s].0, cells[s].1, l)
    {
      if t > 0 {
        HitsBeforeMembers(cells, l, t - 1);
      }
    }

    /**
     * Counts the cells of group g that pass the scan's test for digit l, in
     * scan order, stopping at the second one.
     */
    method ScanGroup(g: Group, l: int) returns (cnt: int, row: int, col: int)
      requires Shape() && ValidGroup(g) && 1 <= l <= 9
      ensures ScanReport(g, l, cnt, row, col)
    {
      var cells := GroupCells(g);
      cnt, row, col := 0, 0, 0;
      ghost var first := 0;
      var t := 0;
      while t < 9
        invariant 0 <= t <= 9 && 0 <= cnt <= 1
        invariant HitsBefore(cells, l, t) == if cnt == 0 then [] else [first]
        invariant cnt == 1 ==> 0 <= first < 9 && cells[first] == (row, col)
      {
        var i, j := cells[t].0, cells[t].1;
        if problemMatrix[i, j] > 0 {
          t := t + 1;
          continue;
        }
        if CheckValid(i, j, l) {
          if cnt == 0 {
            first := t;
          }
          row, col := i, j;
          cnt := cnt + 1;
        }
        if cnt > 1 {
          SecondHit(g, l, t, first);
          break;
        }
        t := t + 1;
      }
      if t == 9 {
        ScanComplete(g, l, cnt, first, row, col);
      }
    }

    /** A second passing cell, at t, after the one at first: the scan reports two. */
    lemma SecondHit(g: Group, l: int, t: int, first: int)
      requires Shape() && ValidGroup(g) && 1 <= l <= 9 && 0 <= t < 9
      requires HitsBefore(GroupCells(g), l, t) == [first]
      requires Hit(GroupCells(g)[t].0, GroupCells(g)[t].1, l)
      ensures ScanReport(g, l, 2, GroupCells(g)[t].0, GroupCells(g)[t].1)
    {
      var cells := GroupCells(g);
      HitsBeforeMembers(cells, l, t);
      GroupCellsExact(g);
      assert first in HitsBefore(cells, l, t);
      assert cells[first] != cells[t];
      var r1, c1 := cells[first].0, cells[first].1;
      assert (r1, c1) != (cells[t].0, cells[t].1) && Hit(r1, c1, l);
    }

    /** A scan that reached the end with at most one passing cell reports it. */
    lemma ScanComplete(g: Group, l: int, cnt: int, first: int, row: int, col: int)
      requires Shape() && ValidGroup(g) && 1 <= l <= 9 && 0 <= cnt <= 1
      requires HitsBefore(GroupCells(g), l, 9) == if cnt == 0 then [] else [first]
      requires cnt == 1 ==> 0 <= first < 9 && GroupCells(g)[first] == (row, col)
      ensures ScanReport(g, l, cnt, row, col)
    {
      var cells := GroupCells(g);
      HitsBeforeMembers(cells, l, 9);
      GroupCellsExact(g);
      if cnt == 0 {
        forall r, c | InBoard(r, c) && InGroup(g, r, c) ensures !Hit(r, c, l) {
          var s :| 0 <= s < 9 && cells[s] == (r, c);
        }
      } else {
        assert first in HitsBefore(cells, l, 9);
        forall r, c | InBoard(r, c) && InGroup(g, r, c) && Hit(r, c, l) ensures r == row && c == col {
          var s :| 0 <= s < 9 && cells[s] == (r, c);
          assert s in HitsBefore(cells, l, 9);
        }
      }
    }

    /**
     * On a solver whose tags match its grid, the scan's report is the
     * outcome the rules give: the cells that pass are the candidate cells.
     */
    lemma ScanMeaning(g: Group, l: int, cnt: int, row: int, col: int)
      requires Shape() && InRange(Board()) && CurrentTags() == TagsOf(Board())
      requires ValidGroup(g) && 1 <= l <= 9 && ScanReport(g, l, cnt, row, col)
      ensures ScanOutcome(Board(), g, l, cnt, row, col)
    {
      forall r, c | InBoard(r, c) ensures Candidate(Board(), r, c, l) <==> Hit(r, c, l) {
        CandidateTest(r, c, l);
      }
    }

    /**
     * What the scan tests at a cell, a filled check and then CheckValid,
     * says exactly whether the cell is a candidate for l.
     */
    lemma CandidateTest(i: int, j: int, l: int)
      requires Shape() && InRange(Board()) && CurrentTags() == TagsOf(Board())
      requires InBoard(i, j) && 1 <= l <= 9
      ensures Candidate(Board(), i, j, l) <==> Hit(i, j, l)
    {
      CheckValidIsClear(i, j, l);
      ClearMeansFree(Board(), i, j, l);
    }

    /** A hidden single just written and tagged leaves the solver valid and closer to done. */
    lemma CommitKeepsValid(G0: Board, G: Board, g: Group, row: int, col: int, l: int)
      requires Shape() && IsBoard(G0) && IsBoard(G) && InRange(G) && NoConflict(G) && Refines(G, G0)
      requires ValidGroup(g) && 1 <= l <= 9 && SoleCandidate(G, g, l, row, col)
      requires Board() == Place(G, row, col, l)
      requires CurrentTags() == Marked(TagsOf(G), row, col, l, true)
      ensures Valid() && Refines(Board(), G0) && Empties(Board()) < Empties(G)
    {
      TagsOfPlace(G, row, col, l);
      CommitHiddenSingle(G0, G, g, l, row, col);
    }

    /**
     * Writes the hidden single l at (row, col), the only candidate cell for l
     * in group g, and sets its tags.
     */
    method CommitSingle(ghost G0: Board, g: Group, l: int, row: int, col: int)
      requires Valid() && IsBoard(G0) && Refines(Board(), G0)
      requires ValidGroup(g) && 1 <= l <= 9 && SoleCandidate(Board(), g, l, row, col)
      modifies problemMatrix, tagRow, tagCol, tagBlk
      ensures Valid() && Board() == Place(old(Board()), row, col, l)
      ensures Refines(Board(), G0) && Empties(Board()) < Empties(old(Board()))
    {
      ghost var G := Board();
      problemMatrix[row, col] := l;
      SameBoard(Board(), Place(G, row, col, l));
      AssignTag(row, col, l);
      CommitKeepsValid(G0, G, g, row, col, l);
    }

    /**
     * One scan of group g for digit l, and the write when it finds a hidden
     * single.  Reports whether it wrote; when it did not, l is not a hidden
     * single in g.
     */
    method DeduceDigit(ghost G0: Board, g: Group, l: int) returns (found: bool)
      requires Valid() && IsBoard(G0) && Refines(Board(), G0) && ValidGroup(g) && 1 <= l <= 9
      modifies problemMatrix, tagRow, tagCol, tagBlk
      ensures Valid() && Refines(Board(), G0)
      ensures found ==> Empties(Board()) < Empties(old(Board()))
      ensures found ==> exists r, c :: SoleCandidate(old(Board()), g, l, r, c) && Board() == Place(old(Board()), r, c, l)
      ensures !found ==> Board() == old(Board()) && NoSingle(Board(), g, l)
    {
      var cnt, row, col := ScanGroup(g, l);
      ScanMeaning(g, l, cnt, row, col);
      if cnt == 1 {
        CommitSingle(G0, g, l, row, col);
        found := true;
      } else {
        ScanFindsNoSingle(Board(), g, l, cnt, row, col);
        found := false;
      }
    }

    /**
     * Tries every digit from 1 up to, not including, digitEnd as a hidden
     * single in group g, writing each one found.  Reports whether it wrote;
     * when it did not, none of those digits is a hidden single in g.
     */
    method DeduceGroup(ghost G0: Board, g: Group, digitEnd: int) returns (found: bool)
      requires Valid() && IsBoard(G0) && Refines(Board(), G0) && ValidGroup(g) && 1 <= digitEnd <= 10
      modifies problemMatrix, tagRow, tagCol, tagBlk
      ensures Valid() && Refines(Board(), G0)
      ensures Extends(Board(), old(Board()))
      ensures found ==> Empties(Board()) < Empties(old(Board()))
      ensures !found ==> Board() == old(Board()) && forall v :: 1 <= v < digitEnd ==> NoSingle(Board(), g, v)
    {
      ghost var G1 := Board();
      found := false;
      for l := 1 to digitEnd
        invariant Valid() && Refines(Board(), G0)
        invariant Extends(Board(), G1)
        invariant found ==> Empties(Board()) < Empties(G1)
        invariant !found ==> Board() == G1 && forall v :: 1 <= v < l ==> NoSingle(G1, g, v)
      {
        var written := DeduceDigit(G0, g, l);
        if written {
          found := true;
        }
      }
    }

    /**
     * Repeats a pass over the blocks, one over the rows and one over the
     * columns, writing every hidden single found, until a whole round
     * writes nothing.
     */
    method SolveLogical()
      requires Valid()
      modifies problemMatrix, tagRow, tagCol, tagBlk
      ensures Valid() && Refines(Board(), old(Board()))
      ensures BlocksSettled(Board()) && RowsSettled(Board()) && ColumnsSettled(Board())
    {
      ghost var G0 := Board();
      while true
        invariant Valid() && Refines(Board(), G0)
        decreases Empties(Board())
      {
        var inBlocks := BlockPass();
        var inRows := RowPass();
        var inColumns := ColumnPass();
        var flagValueSet := inBlocks || inRows || inColumns;
        if !flagValueSet {
          break;
        }
      }
    }

    /**
     * Looks for hidden singles in each block, for digits 1 to 9.
     */
    method BlockPass() returns (flagValueSet: bool)
      requires Valid()
      modifies problemMatrix, tagRow, tagCol, tagBlk
      ensures Valid() && Refines(Board(), old(Board()))
      ensures flagValueSet ==> Empties(Board()) < Empties(old(Board()))
      ensures !flagValueSet ==> Board() == old(Board()) && BlocksSettled(Board())
    {
      ghost var G0 := Board();
      flagValueSet := false;
      for k := 0 to N
        invariant Valid() && Refines(Board(), G0)
        invariant flagValueSet ==> Empties(Board()) < Empties(G0)
        invariant !flagValueSet ==> Board() == G0 && forall x, v :: 0 <= x < k && 1 <= v <= 9 ==> NoSingle(G0, Box(x), v)
      {
        var found := DeduceGroup(G0, Box(k), N + 1);
        if found {
          flagValueSet := true;
        }
      }
    }

    /**
     * Looks for hidden singles in each row, for digits 1 to 8 only (9 is never tried).
     */
    method RowPass() returns (flagValueSet: bool)
      requires Valid()
      modifies problemMatrix, tagRow, tagCol, tagBlk
      ensures Valid() && Refines(Board(), old(Board()))
      ensures flagValueSet ==> Empties(Board()) < Empties(old(Board()))
      ensures !flagValueSet ==> Board() == old(Board()) && RowsSettled(Board())
    {
      ghost var G0 := Board();
      flagValueSet := false;
      for i := 0 to N
        invariant Valid() && Refines(Board(), G0)
        invariant flagValueSet ==> Empties(Board()) < Empties(G0)
        invariant !flagValueSet ==> Board() == G0 && forall x, v :: 0 <= x < i && 1 <= v <= 8 ==> NoSingle(G0, Row(x), v)
      {
        var found := DeduceGroup(G0, Row(i), N);
        if found {
          flagValueSet := true;
        }
      }
    }

    /**
     * Looks for hidden singles in each column, for digits 1 to 8 only (9 is never tried).
     */
    method ColumnPass() returns (flagValueSet: bool)
      requires Valid()
      modifies problemMatrix, tagRow, tagCol, tagBlk
      ensures Valid() && Refines(Board(), old(Board()))
      ensures flagValueSet ==> Empties(Board()) < Empties(old(Board()))
      ensures !flagValueSet ==> Board() == old(Board()) && ColumnsSettled(Board())
    {
      ghost var G0 := Board();
      flagValueSet := false;
      for i := 0 to N
        invariant Valid() && Refines(Board(), G0)
        invariant flagValueSet ==> Empties(Board()) < Empties(G0)
        invariant !flagValueSet ==> Board() == G0 && forall x, v :: 0 <= x < i && 1 <= v <= 8 ==> NoSingle(G0, Col(x), v)
      {
        var found := DeduceGroup(G0, Col(i), N);
        if found {
          flagValueSet := true;
        }
      }
    }

    /**
     * Before the search descends from (i, j) with val written there and
     * tagged, the solver is valid again and every cell up to (i, j) is filled.
     */
    lemma ChildEntry(G0: Board, T0: Tags, i: int, j: int, val: int)
      requires Shape() && IsBoard(G0) && InRange(G0) && NoConflict(G0) && T0 == TagsOf(G0)
      requires InBoard(i, j) && G0[i][j] == 0 && 1 <= val <= 9
      requires FilledBefore(G0, Position(i, j)) && Clear(T0, i, j, val)
      requires forall r, c :: InBoard(r, c) && (r, c) != (i, j) ==> problemMatrix[r, c] == G0[r][c]
      requires problemMatrix[i, j] == val
      requires CurrentTags() == Marked(T0, i, j, val, true)
      ensures Valid() && Board() == Place(G0, i, j, val)
      ensures FilledBefore(Board(), Position(i + 1, j))
    {
      ClearMeansFree(G0, i, j, val);
      SameBoard(Board(), Place(G0, i, j, val));
      TagsOfPlace(G0, i, j, val);
      PlaceKeepsNoConflict(G0, i, j, val);
      FilledBeforeNext(Place(G0, i, j, val), i, j);
    }

    /** The grid is G0 with v written at (i, j), read cell by cell. */
    lemma AtPlace(G0: Board, i: int, j: int, v: int)
      requires Shape() && IsBoard(G0) && InBoard(i, j) && Board() == Place(G0, i, j, v)
      ensures problemMatrix[i, j] == v
      ensures forall r, c :: InBoard(r, c) && (r, c) != (i, j) ==> problemMatrix[r, c] == G0[r][c]
    {
    }

    /**
     * Depth-first search from cell (i, j), moving down each column and then
     * to the next column, trying digits in ascending order.  i may be 9,
     * meaning the top of the next column.  On success the grid holds the
     * first solution in that order; on failure the grid and tags are as
     * they were.
     */
    method SolveBacktrack(i: int, j: int) returns (ok: bool)
      requires Valid() && 0 <= i <= 9 && 0 <= j < 9
      requires FilledBefore(Board(), Position(i, j))
      modifies problemMatrix, tagRow, tagCol, tagBlk
      ensures Valid()
      ensures ok ==> IsFirstSolution(Board(), old(Board()))
      ensures !ok ==> !Solvable(old(Board())) && Board() == old(Board())
      ensures !ok ==> CurrentTags() == old(CurrentTags())
      decreases 81 - Position(i, j), 2
    {
      ghost var G0 := Board();
      var i, j := i, j;
      if i == N {
        i := 0;
        j := j + 1;
        if j == N {
          CompleteIsFirst(G0);
          return true;
        }
      }
      if problemMatrix[i, j] > 0 {
        FilledBeforeNext(G0, i, j);
        ok := SolveBacktrack(i + 1, j);
        return;
      }
      ok := TryDigits(i, j);
    }

    /**
     * The search at the empty cell (i, j): each digit from 1 to 9 that
     * CheckValid allows is tried in turn.  When every digit fails, the tags
     * of the last digit written are cleared once more and the cell emptied.
     */
    method TryDigits(i: int, j: int) returns (ok: bool)
      requires Valid() && InBoard(i, j) && problemMatrix[i, j] == 0
      requires FilledBefore(Board(), Position(i, j))
      modifies problemMatrix, tagRow, tagCol, tagBlk
      ensures Valid()
      ensures ok ==> IsFirstSolution(Board(), old(Board()))
      ensures !ok ==> !Solvable(old(Board())) && Board() == old(Board())
      decreases 81 - Position(i, j), 1
    {
      ghost var G0 := Board();
      ghost var T0 := CurrentTags();
      assert InRange(G0) && NoConflict(G0) && T0 == TagsOf(G0) && G0[i][j] == 0;
      for val := 1 to N + 1
        invariant forall r, c :: InBoard(r, c) && (r, c) != (i, j) ==> problemMatrix[r, c] == G0[r][c]
        invariant 0 <= problemMatrix[i, j] < val
        invariant problemMatrix[i, j] != 0 ==> Clear(T0, i, j, problemMatrix[i, j])
        invariant CurrentTags() == T0
        invariant forall T {:trigger Extends(T, G0)} :: IsSolution(T) && Extends(T, G0) ==> T[i][j] >= val
      {
        if CheckValid(i, j, val) {
          var found := Descend(G0, i, j, val);
          if found {
            FirstSolutionStep(G0, i, j, val, Board());
            return true;
          }
        } else {
          CheckValidIsClear(i, j, val);
          ClearMeansFree(G0, i, j, val);
          BlockedDigit(G0, i, j, val);
        }
      }
      ghost var last := problemMatrix[i, j];
      if last != 0 {
        ResetOfClearIsNoop(T0, i, j, last);
      }
      ResetTag(i, j, problemMatrix[i, j]);
      problemMatrix[i, j] := 0;
      SameBoard(Board(), G0);
      return false;
    }

    /**
     * One legal digit tried at (i, j), where the grid is G0 apart from that
     * cell and the tags are those of G0: val is written and tagged and the
     * search moves to the next cell.  On failure val's tags are cleared but
     * val stays in the cell.
     */
    method Descend(ghost G0: Board, i: int, j: int, val: int) returns (found: bool)
      requires Shape() && IsBoard(G0) && InRange(G0) && NoConflict(G0)
      requires InBoard(i, j) && G0[i][j] == 0 && 1 <= val <= 9
      requires FilledBefore(G0, Position(i, j))
      requires forall r, c :: InBoard(r, c) && (r, c) != (i, j) ==> problemMatrix[r, c] == G0[r][c]
      requires CurrentTags() == TagsOf(G0) && CheckValid(i, j, val)
      modifies problemMatrix, tagRow, tagCol, tagBlk
      ensures found ==> Valid() && IsFirstSolution(Board(), Place(G0, i, j, val))
      ensures !found ==> !Solvable(Place(G0, i, j, val)) && problemMatrix[i, j] == val
      ensures !found ==> forall r, c :: InBoard(r, c) && (r, c) != (i, j) ==> problemMatrix[r, c] == G0[r][c]
      ensures !found ==> CurrentTags() == TagsOf(G0) && Clear(TagsOf(G0), i, j, val)
      decreases 81 - Position(i, j), 0
    {
      ghost var T0 := CurrentTags();
      CheckValidIsClear(i, j, val);
      problemMatrix[i, j] := val;
      AssignTag(i, j, val);
      ChildEntry(G0, T0, i, j, val);
      found := SolveBacktrack(i + 1, j);
      if found {
        return;
      }
      AtPlace(G0, i, j, val);
      ResetTag(i, j, problemMatrix[i, j]);
      ChildExit(G0, i, j, val);
    }
  }
}
