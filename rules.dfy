/**
 * Values of a 9x9 Sudoku board and the rules a finished board obeys:
 * the three kinds of group (row, column, 3x3 block), which digits a cell
 * may still take, what a solution is and when one board extends another.
 * Everything here is a pure value; the solver's arrays are read into
 * these values by the Solver module.
 */
module Rules {

  /** A board as nine rows of nine cells; 0 marks an empty cell. */
  type Board = seq<seq<int>>

  /**
   * The side of the board (NUM in the solver).  The side of a block (its
   * ROW, COL and BLK, all 3) is written as the literal 3 below.
   */
  const N := 9

  predicate InBoard(r: int, c: int) {
    0 <= r < 9 && 0 <= c < 9
  }

  ghost predicate IsBoard(G: Board) {
    |G| == 9 && forall r :: 0 <= r < 9 ==> |G[r]| == 9
  }

  /** The block holding cell (r, c); blocks are numbered row-major. */
  function BlockOf(r: int, c: int): (b: int)
    requires InBoard(r, c)
    ensures 0 <= b < 9
  {
    (r / 3) * 3 + c / 3
  }

  /** The three kinds of group a digit may occur in at most once. */
  datatype Group = Row(row: int) | Col(col: int) | Box(box: int)

  predicate ValidGroup(g: Group) {
    match g
    case Row(x) => 0 <= x < 9
    case Col(x) => 0 <= x < 9
    case Box(x) => 0 <= x < 9
  }

  predicate InGroup(g: Group, r: int, c: int)
    requires InBoard(r, c)
  {
    match g
    case Row(x) => r == x
    case Col(x) => c == x
    case Box(x) => BlockOf(r, c) == x
  }

  /** Cell t of block x, counting row by row inside the block. */
  function BoxCell(x: int, t: int): (int, int) {
    ((x / 3) * 3 + t / 3, (x % 3) * 3 + t % 3)
  }

  lemma DivUnique(q: int, s: int)
    requires 0 <= s < 3
    ensures (3 * q + s) / 3 == q && (3 * q + s) % 3 == s
  {
  }

  /** Cell t of block x lies in block x. */
  lemma BoxCellInBlock(x: int, t: int)
    requires 0 <= x < 9 && 0 <= t < 9
    ensures InBoard(BoxCell(x, t).0, BoxCell(x, t).1)
    ensures BlockOf(BoxCell(x, t).0, BoxCell(x, t).1) == x
  {
    DivUnique(x / 3, t / 3);
    DivUnique(x % 3, t % 3);
  }

  /** Every cell is some cell t of its own block. */
  lemma BoxCellInverse(r: int, c: int)
    requires InBoard(r, c)
    ensures 0 <= (r % 3) * 3 + c % 3 < 9
    ensures BoxCell(BlockOf(r, c), (r % 3) * 3 + c % 3) == (r, c)
  {
    DivUnique(r / 3, c / 3);
    DivUnique(r % 3, c % 3);
  }

  /** Different counts give different cells of a block. */
  lemma BoxCellInjective(x: int, s: int, t: int)
    requires 0 <= s < t < 9
    ensures BoxCell(x, s) != BoxCell(x, t)
  {
    DivUnique(s / 3, s % 3);
    DivUnique(t / 3, t % 3);
  }

  /** The nine cells of block x, row by row. */
  function BoxCells(x: int): (cells: seq<(int, int)>)
    requires 0 <= x < 9
    ensures |cells| == 9
    ensures forall t :: 0 <= t < 9 ==>
      InBoard(cells[t].0, cells[t].1) && BlockOf(cells[t].0, cells[t].1) == x
    ensures forall s, t :: 0 <= s < t < 9 ==> cells[s] != cells[t]
    ensures forall r, c :: InBoard(r, c) && BlockOf(r, c) == x ==>
      exists t :: 0 <= t < 9 && cells[t] == (r, c)
  {
    var cells := seq(9, t => BoxCell(x, t));
    forall t | 0 <= t < 9
      ensures InBoard(cells[t].0, cells[t].1) && BlockOf(cells[t].0, cells[t].1) == x
    {
      BoxCellInBlock(x, t);
    }
    forall s, t | 0 <= s < t < 9 ensures cells[s] != cells[t] {
      BoxCellInjective(x, s, t);
    }
    forall r, c | InBoard(r, c) && BlockOf(r, c) == x
      ensures exists t :: 0 <= t < 9 && cells[t] == (r, c)
    {
      BoxCellInverse(r, c);
      assert cells[(r % 3) * 3 + c % 3] == (r, c);
    }
    cells
  }

  /**
   * The nine cells of a group in the order the solver scans them:
   * left to right along a row, top to bottom down a column, and row by row
   * inside a block.
   */
  function GroupCells(g: Group): (cells: seq<(int, int)>)
    requires ValidGroup(g)
    ensures |cells| == 9
    ensures forall t :: 0 <= t < 9 ==>
      InBoard(cells[t].0, cells[t].1) && InGroup(g, cells[t].0, cells[t].1)
  {
    match g
    case Row(x) => seq(9, t => (x, t))
    case Col(x) => seq(9, t => (t, x))
    case Box(x) => BoxCells(x)
  }

  /** The scan order lists each cell of the group exactly once. */
  lemma GroupCellsExact(g: Group)
    requires ValidGroup(g)
    ensures forall s, t :: 0 <= s < t < 9 ==> GroupCells(g)[s] != GroupCells(g)[t]
    ensures forall r, c :: InBoard(r, c) && InGroup(g, r, c) ==>
      exists t :: 0 <= t < 9 && GroupCells(g)[t] == (r, c)
  {
    var cells := GroupCells(g);
    match g
    case Row(x) =>
      assert forall r, c :: InBoard(r, c) && InGroup(g, r, c) ==> cells[c] == (r, c);
    case Col(x) =>
      assert forall r, c :: InBoard(r, c) && InGroup(g, r, c) ==> cells[r] == (r, c);
    case Box(x) =>
  }

  /** Some cell of group g holds v. */
  ghost predicate GroupHas(G: Board, g: Group, v: int)
    requires IsBoard(G)
  {
    exists r, c :: InBoard(r, c) && InGroup(g, r, c) && G[r][c] == v
  }

  /** No cell in the row, column or block of (r, c) holds v. */
  ghost predicate Free(G: Board, r: int, c: int, v: int)
    requires IsBoard(G) && InBoard(r, c)
  {
    !GroupHas(G, Row(r), v) && !GroupHas(G, Col(c), v) && !GroupHas(G, Box(BlockOf(r, c)), v)
  }

  /** (r, c) is empty and v may legally be written there. */
  ghost predicate Candidate(G: Board, r: int, c: int, v: int)
    requires IsBoard(G) && InBoard(r, c)
  {
    G[r][c] == 0 && Free(G, r, c, v)
  }

  /** Two different cells that share a row, a column or a block. */
  predicate Peers(r1: int, c1: int, r2: int, c2: int)
    requires InBoard(r1, c1) && InBoard(r2, c2)
  {
    (r1, c1) != (r2, c2) && (r1 == r2 || c1 == c2 || BlockOf(r1, c1) == BlockOf(r2, c2))
  }

  /** No digit occurs twice in a row, a column or a block. */
  ghost predicate NoConflict(G: Board)
    requires IsBoard(G)
  {
    forall r1, c1, r2, c2 ::
      InBoard(r1, c1) && InBoard(r2, c2) && Peers(r1, c1, r2, c2) && G[r1][c1] != 0 ==>
        G[r1][c1] != G[r2][c2]
  }

  /** Every cell is empty or holds a digit. */
  ghost predicate InRange(G: Board)
    requires IsBoard(G)
  {
    forall r, c :: InBoard(r, c) ==> 0 <= G[r][c] <= 9
  }

  /** Every cell holds a digit. */
  ghost predicate Complete(G: Board)
    requires IsBoard(G)
  {
    forall r, c :: InBoard(r, c) ==> 1 <= G[r][c] <= 9
  }

  /** A finished board: every cell filled, no group repeating a digit. */
  ghost predicate IsSolution(S: Board) {
    IsBoard(S) && Complete(S) && NoConflict(S)
  }

  /** S keeps every filled cell of G. */
  ghost predicate Extends(S: Board, G: Board)
    requires IsBoard(S) && IsBoard(G)
  {
    forall r, c :: InBoard(r, c) && G[r][c] != 0 ==> S[r][c] == G[r][c]
  }

  /** Some solution keeps every filled cell of G. */
  ghost predicate Solvable(G: Board)
    requires IsBoard(G)
  {
    exists S :: IsSolution(S) && Extends(S, G)
  }

  /** G fills in cells of G0 only, and loses none of G0's solutions. */
  ghost predicate Refines(G: Board, G0: Board)
    requires IsBoard(G) && IsBoard(G0)
  {
    Extends(G, G0) && forall S :: IsSolution(S) && Extends(S, G0) ==> Extends(S, G)
  }

  /** G with v written at (i, j). */
  ghost function Place(G: Board, i: int, j: int, v: int): (P: Board)
    requires IsBoard(G) && InBoard(i, j)
    ensures IsBoard(P)
    ensures forall r, c :: InBoard(r, c) ==> P[r][c] == if (r, c) == (i, j) then v else G[r][c]
  {
    G[i := G[i][j := v]]
  }

  /** Two boards that agree cell by cell are equal. */
  lemma SameBoard(G: Board, H: Board)
    requires IsBoard(G) && IsBoard(H)
    requires forall r, c :: InBoard(r, c) ==> G[r][c] == H[r][c]
    ensures G == H
  {
    assert forall r | 0 <= r < 9 :: G[r] == H[r];
  }

  /** The empty cells of G: the measure of the solver's deduction loop. */
  ghost function Empties(G: Board): set<(int, int)>
    requires IsBoard(G)
  {
    set r, c | 0 <= r < 9 && 0 <= c < 9 && G[r][c] == 0 :: (r, c)
  }

  /** Filling an empty cell removes it from the empty cells and adds none. */
  lemma PlaceShrinksEmpties(G: Board, i: int, j: int, v: int)
    requires IsBoard(G) && InBoard(i, j) && G[i][j] == 0 && v != 0
    ensures Empties(Place(G, i, j, v)) < Empties(G)
  {
    assert (i, j) in Empties(G);
  }

  /** Writing v into an empty cell adds exactly v to the cell's three groups. */
  lemma GroupHasAfterPlace(G: Board, i: int, j: int, n: int, g: Group, v: int)
    requires IsBoard(G) && InBoard(i, j) && G[i][j] == 0 && v != 0
    ensures GroupHas(Place(G, i, j, n), g, v) <==> GroupHas(G, g, v) || (InGroup(g, i, j) && v == n)
  {
    var P := Place(G, i, j, n);
    if GroupHas(P, g, v) {
      var r, c :| InBoard(r, c) && InGroup(g, r, c) && P[r][c] == v;
      if (r, c) != (i, j) {
        assert G[r][c] == v;
      }
    }
    if GroupHas(G, g, v) {
      var r, c :| InBoard(r, c) && InGroup(g, r, c) && G[r][c] == v;
      assert P[r][c] == v;
    }
    if InGroup(g, i, j) && v == n {
      assert P[i][j] == v;
    }
  }

  /** Writing a legal digit into an empty cell keeps the board free of conflicts. */
  lemma PlaceKeepsNoConflict(G: Board, i: int, j: int, v: int)
    requires IsBoard(G) && InBoard(i, j) && NoConflict(G)
    requires Candidate(G, i, j, v) && 1 <= v <= 9
    ensures NoConflict(Place(G, i, j, v))
  {
    var P := Place(G, i, j, v);
    forall r1, c1, r2, c2 |
      InBoard(r1, c1) && InBoard(r2, c2) && Peers(r1, c1, r2, c2) && P[r1][c1] != 0
      ensures P[r1][c1] != P[r2][c2]
    {
      if (r1, c1) == (i, j) {
        assert InGroup(Row(i), r2, c2) || InGroup(Col(j), r2, c2)
          || InGroup(Box(BlockOf(i, j)), r2, c2);
      } else if (r2, c2) == (i, j) {
        assert InGroup(Row(i), r1, c1) || InGroup(Col(j), r1, c1)
          || InGroup(Box(BlockOf(i, j)), r1, c1);
      }
    }
  }

  /** Nine distinct digits, each in 1..9, cover 1..9. */
  lemma {:induction false} DistinctWithin(s: seq<int>, U: set<int>)
    requires forall a, b :: 0 <= a < b < |s| ==> s[a] != s[b]
    requires forall a :: 0 <= a < |s| ==> s[a] in U
    ensures |s| <= |U|
  {
    if s != [] {
      DistinctWithin(s[1..], U - {s[0]});
    }
  }

  lemma EveryDigitPresent(s: seq<int>, v: int)
    requires |s| == 9 && 1 <= v <= 9
    requires forall a, b :: 0 <= a < b < 9 ==> s[a] != s[b]
    requires forall a :: 0 <= a < 9 ==> 1 <= s[a] <= 9
    ensures v in s
  {
    if v !in s {
      assert |{1, 2, 3, 4, 5, 6, 7, 8, 9} - {v}| == 8;
      DistinctWithin(s, {1, 2, 3, 4, 5, 6, 7, 8, 9} - {v});
    }
  }

  /** Every row, column and block of a solution holds every digit. */
  lemma SolutionGroupHasDigit(S: Board, g: Group, v: int)
    requires IsSolution(S) && ValidGroup(g) && 1 <= v <= 9
    ensures GroupHas(S, g, v)
  {
    var cells := GroupCells(g);
    GroupCellsExact(g);
    var s := seq(9, t requires 0 <= t < 9 => S[cells[t].0][cells[t].1]);
    forall a, b | 0 <= a < b < 9 ensures s[a] != s[b] {
      assert Peers(cells[a].0, cells[a].1, cells[b].0, cells[b].1);
    }
    EveryDigitPresent(s, v);
    var t :| 0 <= t < 9 && s[t] == v;
    assert InBoard(cells[t].0, cells[t].1) && InGroup(g, cells[t].0, cells[t].1);
  }

  /** In any solution extending G, the digit at an empty cell of G is legal there in G. */
  lemma SolutionDigitIsFree(G: Board, S: Board, r: int, c: int)
    requires IsBoard(G) && InBoard(r, c) && G[r][c] == 0
    requires IsSolution(S) && Extends(S, G)
    ensures Free(G, r, c, S[r][c])
  {
    var v := S[r][c];
    forall g | g == Row(r) || g == Col(c) || g == Box(BlockOf(r, c))
      ensures !GroupHas(G, g, v)
    {
      if GroupHas(G, g, v) {
        var r', c' :| InBoard(r', c') && InGroup(g, r', c') && G[r'][c'] == v;
        assert Peers(r, c, r', c');
      }
    }
  }

  /** A digit that is not legal at an empty cell of G sits there in no solution extending G. */
  lemma BlockedDigit(G: Board, i: int, j: int, v: int)
    requires IsBoard(G) && InBoard(i, j) && G[i][j] == 0 && !Free(G, i, j, v)
    ensures forall S :: IsSolution(S) && Extends(S, G) ==> S[i][j] != v
  {
    forall S | IsSolution(S) && Extends(S, G) ensures S[i][j] != v {
      SolutionDigitIsFree(G, S, i, j);
    }
  }

  /** When writing v at (i, j) leaves no solution, no solution extending G holds v there. */
  lemma PlaceUnsolvable(G: Board, i: int, j: int, v: int)
    requires IsBoard(G) && InBoard(i, j) && !Solvable(Place(G, i, j, v))
    ensures forall S :: IsSolution(S) && Extends(S, G) ==> S[i][j] != v
  {
    forall S | IsSolution(S) && Extends(S, G) ensures Extends(S, Place(G, i, j, S[i][j])) {
    }
  }

  /** v has exactly one candidate cell, (row, col), in group g. */
  ghost predicate SoleCandidate(G: Board, g: Group, v: int, row: int, col: int)
    requires IsBoard(G)
  {
    InBoard(row, col) && InGroup(g, row, col) && Candidate(G, row, col, v) &&
    forall r, c :: InBoard(r, c) && InGroup(g, r, c) && Candidate(G, r, c, v) ==> r == row && c == col
  }

  /** No cell of group g is the sole candidate for v: v is not a hidden single there. */
  ghost predicate NoSingle(G: Board, g: Group, v: int)
    requires IsBoard(G)
  {
    forall r, c :: !SoleCandidate(G, g, v, r, c)
  }

  /**
   * The hidden-single rule is sound: when v has one candidate cell in a
   * group, every solution extending G holds v in that cell.
   */
  lemma HiddenSingle(G: Board, g: Group, v: int, row: int, col: int)
    requires IsBoard(G) && ValidGroup(g) && 1 <= v <= 9
    requires SoleCandidate(G, g, v, row, col)
    ensures forall S :: IsSolution(S) && Extends(S, G) ==> S[row][col] == v
  {
    forall S | IsSolution(S) && Extends(S, G) ensures S[row][col] == v {
      SolutionGroupHasDigit(S, g, v);
      var r, c :| InBoard(r, c) && InGroup(g, r, c) && S[r][c] == v;
      assert g == Row(row) || g == Col(col) || g == Box(BlockOf(row, col));
      assert G[r][c] == 0;
      SolutionDigitIsFree(G, S, r, c);
      assert Candidate(G, r, c, v);
    }
  }

  /**
   * Committing a hidden single keeps a conflict-free board conflict free,
   * fills one more empty cell and loses no solution of G0.
   */
  lemma CommitHiddenSingle(G0: Board, G: Board, g: Group, v: int, row: int, col: int)
    requires IsBoard(G0) && IsBoard(G) && InRange(G) && NoConflict(G) && Refines(G, G0)
    requires ValidGroup(g) && 1 <= v <= 9 && SoleCandidate(G, g, v, row, col)
    ensures InRange(Place(G, row, col, v)) && NoConflict(Place(G, row, col, v))
    ensures Refines(Place(G, row, col, v), G0)
    ensures Empties(Place(G, row, col, v)) < Empties(G)
  {
    PlaceKeepsNoConflict(G, row, col, v);
    HiddenSingle(G, g, v, row, col);
    PlaceShrinksEmpties(G, row, col, v);
  }

  /** The constructor's input filter: a value outside 1..9 becomes an empty cell. */
  function Filter(v: int): (f: int)
    ensures 0 <= f <= 9
    ensures f != 0 <==> 1 <= v <= 9
    ensures f != 0 ==> f == v
  {
    if v < 1 || v > N then 0 else v
  }

  /** The board the solver starts from: every entry outside 1..9 made empty. */
  ghost function Filtered(G: Board): (F: Board)
    requires IsBoard(G)
    ensures IsBoard(F) && InRange(F)
    ensures forall r, c :: InBoard(r, c) ==> F[r][c] == Filter(G[r][c])
  {
    seq(9, r requires 0 <= r < 9 => seq(9, c requires 0 <= c < 9 => Filter(G[r][c])))
  }

  /** The board with every cell empty. */
  ghost function EmptyBoard(): (E: Board)
    ensures IsBoard(E) && InRange(E) && NoConflict(E)
  {
    seq(9, r => seq(9, c => 0))
  }

  /** The row order of the sample solution: row r starts at digit Shift(r) + 1. */
  function Shift(r: int): int {
    (r % 3) * 3 + r / 3
  }

  /** A finished board: row r holds the digits 1..9 rotated by Shift(r). */
  ghost function SampleSolution(): (S: Board)
    ensures IsBoard(S)
  {
    seq(9, r => seq(9, c => (Shift(r) + c) % 9 + 1))
  }

  /** Two numbers in 0..17 less than 9 apart, but not equal, differ mod 9. */
  lemma ModNineDiffer(x: int, y: int)
    requires 0 <= x < 18 && 0 <= y < 18 && x != y && -9 < x - y < 9
    ensures x % 9 != y % 9
  {
    assert x % 9 == if x < 9 then x else x - 9;
    assert y % 9 == if y < 9 then y else y - 9;
  }

  /** Two peers of the sample solution hold different digits. */
  lemma SamplePeersDiffer(r1: int, c1: int, r2: int, c2: int)
    requires InBoard(r1, c1) && InBoard(r2, c2) && Peers(r1, c1, r2, c2)
    ensures (Shift(r1) + c1) % 9 != (Shift(r2) + c2) % 9
  {
    var q1, a1, q2, a2 := r1 / 3, r1 % 3, r2 / 3, r2 % 3;
    assert r1 == 3 * q1 + a1 && 0 <= a1 < 3 && 0 <= q1 < 3;
    assert r2 == 3 * q2 + a2 && 0 <= a2 < 3 && 0 <= q2 < 3;
    assert Shift(r1) == 3 * a1 + q1 && Shift(r2) == 3 * a2 + q2;
    if r1 != r2 && c1 != c2 {
      assert q1 == q2 && c1 / 3 == c2 / 3;
      assert -3 < c1 - c2 < 3;
    }
    ModNineDiffer(Shift(r1) + c1, Shift(r2) + c2);
  }

  /** The sample board is a solution. */
  lemma SampleIsSolution()
    ensures IsSolution(SampleSolution())
  {
    var S := SampleSolution();
    forall r1, c1, r2, c2 | InBoard(r1, c1) && InBoard(r2, c2) && Peers(r1, c1, r2, c2) && S[r1][c1] != 0
      ensures S[r1][c1] != S[r2][c2]
    {
      SamplePeersDiffer(r1, c1, r2, c2);
    }
  }

  /** The empty puzzle has a solution, so the solver succeeds on an all-zero input. */
  lemma EmptySolvable()
    ensures Solvable(EmptyBoard())
  {
    SampleIsSolution();
    assert Extends(SampleSolution(), EmptyBoard());
  }

  /**
   * An input with no entry in 1..9 filters to the empty puzzle: its givens
   * cannot conflict, and it is solvable.
   */
  lemma BlankInputSolvable(G: Board)
    requires IsBoard(G) && forall r, c :: InBoard(r, c) ==> Filter(G[r][c]) == 0
    ensures Filtered(G) == EmptyBoard()
    ensures NoConflict(Filtered(G)) && Solvable(Filtered(G))
  {
    SameBoard(Filtered(G), EmptyBoard());
    EmptySolvable();
  }
}
