/**
 * The order in which the backtracking search visits cells and meets
 * solutions.  The cursor moves down a column before it moves to the next
 * column, so cell (r, c) is visited at position 9 * c + r.  Digits are tried
 * in ascending order, so the first solution the search reaches is the least
 * one when boards are compared cell by cell in that order.
 */
module SearchOrder {
  import opened Rules

  /** The position of cell (r, c) in the search's column-major order. */
  function Position(r: int, c: int): int {
    9 * c + r
  }

  /** Every cell the search visits before position p is filled. */
  ghost predicate FilledBefore(G: Board, p: int)
    requires IsBoard(G)
  {
    forall r, c :: InBoard(r, c) && Position(r, c) < p ==> G[r][c] != 0
  }

  /** T and S agree on every cell visited before position p. */
  ghost predicate AgreeBefore(T: Board, S: Board, p: int)
    requires IsBoard(T) && IsBoard(S)
  {
    forall r, c :: InBoard(r, c) && Position(r, c) < p ==> T[r][c] == S[r][c]
  }

  /** T comes before S: at the first cell where they differ, T holds the smaller value. */
  ghost predicate LexBelow(T: Board, S: Board)
    requires IsBoard(T) && IsBoard(S)
  {
    exists r, c :: InBoard(r, c) && AgreeBefore(T, S, Position(r, c)) && T[r][c] < S[r][c]
  }

  /** R is the least solution that keeps every filled cell of G. */
  ghost predicate IsFirstSolution(R: Board, G: Board)
    requires IsBoard(G)
  {
    IsSolution(R) && Extends(R, G) &&
    forall T :: IsSolution(T) && Extends(T, G) ==> !LexBelow(T, R)
  }

  /** Once the cell at position p is filled, every cell before p + 1 is filled. */
  lemma FilledBeforeNext(G: Board, i: int, j: int)
    requires IsBoard(G) && InBoard(i, j) && FilledBefore(G, Position(i, j)) && G[i][j] != 0
    ensures FilledBefore(G, Position(i, j) + 1)
  {
    forall r, c | InBoard(r, c) && Position(r, c) < Position(i, j) + 1 ensures G[r][c] != 0 {
      if Position(r, c) == Position(i, j) {
        PositionInjective(r, c, i, j);
      }
    }
  }

  /** Distinct cells have distinct positions: the search order is a total order on cells. */
  lemma PositionInjective(r1: int, c1: int, r2: int, c2: int)
    requires InBoard(r1, c1) && InBoard(r2, c2) && Position(r1, c1) == Position(r2, c2)
    ensures r1 == r2 && c1 == c2
  {
  }

  /**
   * If T and R agree before (i, j) and R is smaller at (i, j), then T is not
   * below R.
   */
  lemma LexAsymmetric(T: Board, R: Board, i: int, j: int)
    requires IsBoard(T) && IsBoard(R) && InBoard(i, j)
    requires AgreeBefore(T, R, Position(i, j)) && R[i][j] < T[i][j]
    ensures !LexBelow(T, R)
  {
    forall r, c | InBoard(r, c) && AgreeBefore(T, R, Position(r, c))
      ensures T[r][c] >= R[r][c]
    {
      if Position(r, c) == Position(i, j) {
        PositionInjective(r, c, i, j);
      }
    }
  }

  /** Two different boards are ordered one way or the other. */
  lemma {:induction false} FirstDifference(S: Board, T: Board, p: int)
    requires IsBoard(S) && IsBoard(T) && S != T
    requires 0 <= p <= 81 && AgreeBefore(S, T, p)
    ensures LexBelow(S, T) || LexBelow(T, S)
    decreases 81 - p
  {
    if p == 81 {
      SameBoard(S, T);
    } else {
      var r, c := p % 9, p / 9;
      assert InBoard(r, c) && Position(r, c) == p;
      if S[r][c] == T[r][c] {
        forall r', c' | InBoard(r', c') && Position(r', c') < p + 1
          ensures S[r'][c'] == T[r'][c']
        {
          if Position(r', c') == p {
            PositionInjective(r', c', r, c);
          }
        }
        FirstDifference(S, T, p + 1);
      } else if S[r][c] < T[r][c] {
        assert LexBelow(S, T);
      } else {
        assert AgreeBefore(T, S, Position(r, c));
        assert LexBelow(T, S);
      }
    }
  }

  /** Lexicographic order is total on boards. */
  lemma LexTotal(S: Board, T: Board)
    requires IsBoard(S) && IsBoard(T) && S != T
    ensures LexBelow(S, T) || LexBelow(T, S)
  {
    FirstDifference(S, T, 0);
  }

  /** A grid has at most one first solution: the search's answer is determined by its input. */
  lemma FirstSolutionUnique(R1: Board, R2: Board, G: Board)
    requires IsBoard(G) && IsFirstSolution(R1, G) && IsFirstSolution(R2, G)
    ensures R1 == R2
  {
    if R1 != R2 {
      LexTotal(R1, R2);
    }
  }

  /** A filled, conflict-free board is its own first solution. */
  lemma CompleteIsFirst(G: Board)
    requires IsBoard(G) && InRange(G) && NoConflict(G) && FilledBefore(G, 81)
    ensures IsFirstSolution(G, G)
  {
    forall T | IsSolution(T) && Extends(T, G) ensures !LexBelow(T, G) {
      forall r, c | InBoard(r, c) ensures T[r][c] == G[r][c] {
        assert Position(r, c) < 81;
      }
    }
  }

  /**
   * One step of the search: no solution holds a digit below v at the empty
   * cell (i, j), every cell before it is filled, and R is the first solution
   * once v is written there.  Then R is the first solution of G.
   */
  lemma FirstSolutionStep(G: Board, i: int, j: int, v: int, R: Board)
    requires IsBoard(G) && InBoard(i, j) && G[i][j] == 0 && 1 <= v <= 9
    requires FilledBefore(G, Position(i, j))
    requires forall T :: IsSolution(T) && Extends(T, G) ==> T[i][j] >= v
    requires IsFirstSolution(R, Place(G, i, j, v))
    ensures IsFirstSolution(R, G)
  {
    var P := Place(G, i, j, v);
    assert R[i][j] == v;
    forall r, c | InBoard(r, c) && G[r][c] != 0 ensures R[r][c] == G[r][c] {
      assert P[r][c] == G[r][c];
    }
    forall T | IsSolution(T) && Extends(T, G) ensures !LexBelow(T, R) {
      if T[i][j] == v {
        forall r, c | InBoard(r, c) && P[r][c] != 0 ensures T[r][c] == P[r][c] {
        }
        assert Extends(T, P);
      } else {
        forall r, c | InBoard(r, c) && Position(r, c) < Position(i, j)
          ensures T[r][c] == R[r][c]
        {
          assert G[r][c] != 0;
        }
        LexAsymmetric(T, R, i, j);
      }
    }
  }

  /** A board that refines G has the same solutions, and so the same first one. */
  lemma FirstSolutionOfRefined(G: Board, G0: Board, R: Board)
    requires IsBoard(G) && IsBoard(G0) && Refines(G, G0)
    ensures Solvable(G) <==> Solvable(G0)
    ensures IsFirstSolution(R, G) <==> IsFirstSolution(R, G0)
  {
    if Solvable(G0) {
      var S :| IsSolution(S) && Extends(S, G0);
      assert Extends(S, G);
    }
    if Solvable(G) {
      var S :| IsSolution(S) && Extends(S, G);
      assert Extends(S, G0);
    }
  }

  /**
   * A solved grid fed back to the solver comes out unchanged: its only first
   * solution is itself.
   */
  lemma SolvedIsFixed(G: Board, R: Board)
    requires IsSolution(G) && IsFirstSolution(R, G)
    ensures R == G
  {
    CompleteIsFirst(G);
    FirstSolutionUnique(R, G, G);
  }
}
