/**
 * The solver's three tag tables as values.  row[r][d] records that digit
 * d + 1 is used in row r, col[d][c] that it is used in column c (the column
 * table is indexed digit first, as in the solver), and blk[b][d] that it is
 * used in block b.
 */
module TagTables {
  import opened Rules

  type Table = seq<seq<bool>>

  datatype Tags = Tags(row: Table, col: Table, blk: Table)

  ghost predicate IsTable(t: Table) {
    |t| == 9 && forall x :: 0 <= x < 9 ==> |t[x]| == 9
  }

  ghost predicate WellFormed(t: Tags) {
    IsTable(t.row) && IsTable(t.col) && IsTable(t.blk)
  }

  /** Tables with no tag set. */
  ghost function NoTags(): (t: Tags)
    ensures WellFormed(t)
  {
    var none := seq(9, x => seq(9, y => false));
    Tags(none, none, none)
  }

  function Put(t: Table, x: int, y: int, b: bool): Table
    requires 0 <= x < |t| && 0 <= y < |t[x]|
  {
    t[x := t[x][y := b]]
  }

  /**
   * The tables after assignTag (b is true) or resetTag (b is false) for digit
   * n at (i, j): the row, column and block entries of n become b.  Digit 0
   * leaves the tables as they are.
   */
  function Marked(t: Tags, i: int, j: int, n: int, b: bool): (u: Tags)
    requires WellFormed(t) && InBoard(i, j) && 0 <= n <= 9
    ensures WellFormed(u)
  {
    if n == 0 then t
    else Tags(Put(t.row, i, n - 1, b), Put(t.col, n - 1, j, b), Put(t.blk, BlockOf(i, j), n - 1, b))
  }

  /** The test checkValid makes: none of the three tags of digit n at (i, j) is set. */
  predicate Clear(t: Tags, i: int, j: int, n: int)
    requires WellFormed(t) && InBoard(i, j) && 1 <= n <= 9
  {
    !t.row[i][n - 1] && !t.col[n - 1][j] && !t.blk[BlockOf(i, j)][n - 1]
  }

  /** The tables a board implies: a tag is set exactly when its group holds its digit. */
  ghost function TagsOf(G: Board): (t: Tags)
    requires IsBoard(G)
    ensures WellFormed(t)
  {
    Tags(seq(9, r requires 0 <= r < 9 => seq(9, d => GroupHas(G, Row(r), d + 1))),
         seq(9, d => seq(9, c requires 0 <= c < 9 => GroupHas(G, Col(c), d + 1))),
         seq(9, b requires 0 <= b < 9 => seq(9, d => GroupHas(G, Box(b), d + 1))))
  }

  /** One entry of each implied table says whether its group holds its digit. */
  lemma TagsOfAt(G: Board, x: int, d: int)
    requires IsBoard(G) && 0 <= x < 9 && 0 <= d < 9
    ensures TagsOf(G).row[x][d] <==> GroupHas(G, Row(x), d + 1)
    ensures TagsOf(G).col[d][x] <==> GroupHas(G, Col(x), d + 1)
    ensures TagsOf(G).blk[x][d] <==> GroupHas(G, Box(x), d + 1)
  {
    var t := TagsOf(G);
    assert t.row[x] == seq(9, d => GroupHas(G, Row(x), d + 1));
    assert t.col[d] == seq(9, c requires 0 <= c < 9 => GroupHas(G, Col(c), d + 1));
    assert t.blk[x] == seq(9, d => GroupHas(G, Box(x), d + 1));
  }

  /** Two well-formed tag values that agree entry by entry are equal. */
  lemma SameTags(t: Tags, u: Tags)
    requires WellFormed(t) && WellFormed(u)
    requires forall x, y :: 0 <= x < 9 && 0 <= y < 9 ==>
      t.row[x][y] == u.row[x][y] && t.col[x][y] == u.col[x][y] && t.blk[x][y] == u.blk[x][y]
    ensures t == u
  {
    assert forall x | 0 <= x < 9 :: t.row[x] == u.row[x];
    assert forall x | 0 <= x < 9 :: t.col[x] == u.col[x];
    assert forall x | 0 <= x < 9 :: t.blk[x] == u.blk[x];
  }

  /**
   * assignTag and resetTag touch exactly the three entries of digit n at
   * (i, j), and nothing when n is 0.
   */
  lemma MarkedEntries(t: Tags, i: int, j: int, n: int, b: bool, x: int, y: int)
    requires WellFormed(t) && InBoard(i, j) && 0 <= n <= 9 && 0 <= x < 9 && 0 <= y < 9
    ensures Marked(t, i, j, n, b).row[x][y] ==
      if n != 0 && x == i && y == n - 1 then b else t.row[x][y]
    ensures Marked(t, i, j, n, b).col[x][y] ==
      if n != 0 && x == n - 1 && y == j then b else t.col[x][y]
    ensures Marked(t, i, j, n, b).blk[x][y] ==
      if n != 0 && x == BlockOf(i, j) && y == n - 1 then b else t.blk[x][y]
  {
  }

  /** Resetting the tags just assigned, on tables where they were clear, restores the tables. */
  lemma ResetUndoesAssign(t: Tags, i: int, j: int, n: int)
    requires WellFormed(t) && InBoard(i, j) && 1 <= n <= 9 && Clear(t, i, j, n)
    ensures Marked(Marked(t, i, j, n, true), i, j, n, false) == t
  {
    var u := Marked(Marked(t, i, j, n, true), i, j, n, false);
    forall x, y | 0 <= x < 9 && 0 <= y < 9
      ensures t.row[x][y] == u.row[x][y] && t.col[x][y] == u.col[x][y] && t.blk[x][y] == u.blk[x][y]
    {
      MarkedEntries(t, i, j, n, true, x, y);
      MarkedEntries(Marked(t, i, j, n, true), i, j, n, false, x, y);
    }
    SameTags(t, u);
  }

  /** Resetting tags that are already clear changes nothing. */
  lemma ResetOfClearIsNoop(t: Tags, i: int, j: int, n: int)
    requires WellFormed(t) && InBoard(i, j) && 1 <= n <= 9 && Clear(t, i, j, n)
    ensures Marked(t, i, j, n, false) == t
  {
    var u := Marked(t, i, j, n, false);
    forall x, y | 0 <= x < 9 && 0 <= y < 9
      ensures t.row[x][y] == u.row[x][y] && t.col[x][y] == u.col[x][y] && t.blk[x][y] == u.blk[x][y]
    {
      MarkedEntries(t, i, j, n, false, x, y);
    }
    SameTags(t, u);
  }

  /** On the tables a board implies, checkValid's test says that n is legal at (i, j). */
  lemma ClearMeansFree(G: Board, i: int, j: int, n: int)
    requires IsBoard(G) && InBoard(i, j) && 1 <= n <= 9
    ensures Clear(TagsOf(G), i, j, n) <==> Free(G, i, j, n)
  {
    TagsOfAt(G, i, n - 1);
    TagsOfAt(G, j, n - 1);
    TagsOfAt(G, BlockOf(i, j), n - 1);
  }

  /**
   * Writing n into an empty cell changes the implied tables exactly as
   * assignTag does.
   */
  lemma TagsOfPlace(G: Board, i: int, j: int, n: int)
    requires IsBoard(G) && InBoard(i, j) && G[i][j] == 0 && 1 <= n <= 9
    ensures TagsOf(Place(G, i, j, n)) == Marked(TagsOf(G), i, j, n, true)
  {
    var t, u := TagsOf(Place(G, i, j, n)), Marked(TagsOf(G), i, j, n, true);
    forall x, y | 0 <= x < 9 && 0 <= y < 9
      ensures t.row[x][y] == u.row[x][y] && t.col[x][y] == u.col[x][y] && t.blk[x][y] == u.blk[x][y]
    {
      TagsOfPlaceAt(G, i, j, n, x, y);
    }
    SameTags(t, u);
  }

  /** TagsOfPlace at one entry of each table. */
  lemma TagsOfPlaceAt(G: Board, i: int, j: int, n: int, x: int, y: int)
    requires IsBoard(G) && InBoard(i, j) && G[i][j] == 0 && 1 <= n <= 9
    requires 0 <= x < 9 && 0 <= y < 9
    ensures TagsOf(Place(G, i, j, n)).row[x][y] == Marked(TagsOf(G), i, j, n, true).row[x][y]
    ensures TagsOf(Place(G, i, j, n)).col[x][y] == Marked(TagsOf(G), i, j, n, true).col[x][y]
    ensures TagsOf(Place(G, i, j, n)).blk[x][y] == Marked(TagsOf(G), i, j, n, true).blk[x][y]
  {
    var P := Place(G, i, j, n);
    TagsOfAt(G, x, y);
    TagsOfAt(P, x, y);
    TagsOfAt(G, y, x);
    TagsOfAt(P, y, x);
    MarkedEntries(TagsOf(G), i, j, n, true, x, y);
    GroupHasAfterPlace(G, i, j, n, Row(x), y + 1);
    GroupHasAfterPlace(G, i, j, n, Col(y), x + 1);
    GroupHasAfterPlace(G, i, j, n, Box(x), y + 1);
  }

  /**
   * Clearing the tags of a legal digit just written into an empty cell gives
   * back the tables of the board before the write.
   */
  lemma TagsOfUnplace(G: Board, i: int, j: int, n: int)
    requires IsBoard(G) && InBoard(i, j) && G[i][j] == 0 && 1 <= n <= 9 && Free(G, i, j, n)
    ensures Marked(TagsOf(Place(G, i, j, n)), i, j, n, false) == TagsOf(G)
  {
    TagsOfPlace(G, i, j, n);
    ClearMeansFree(G, i, j, n);
    ResetUndoesAssign(TagsOf(G), i, j, n);
  }

  /** G with every cell from row-major index k on made empty. */
  ghost function Upto(G: Board, k: int): (P: Board)
    requires IsBoard(G)
    ensures IsBoard(P)
  {
    seq(9, r requires 0 <= r < 9 => seq(9, c requires 0 <= c < 9 => if 9 * r + c < k then G[r][c] else 0))
  }

  /** An empty board implies no tags. */
  lemma TagsOfNothing(G: Board)
    requires IsBoard(G)
    ensures TagsOf(Upto(G, 0)) == NoTags()
  {
    var t, u := TagsOf(Upto(G, 0)), NoTags();
    forall x, y | 0 <= x < 9 && 0 <= y < 9
      ensures t.row[x][y] == u.row[x][y] && t.col[x][y] == u.col[x][y] && t.blk[x][y] == u.blk[x][y]
    {
      TagsOfAt(Upto(G, 0), x, y);
      TagsOfAt(Upto(G, 0), y, x);
    }
    SameTags(t, u);
  }

  /**
   * Tagging cell (i, j) with its own digit, in row-major order, extends the
   * tables of the cells before it to the tables of the cells up to it.
   */
  lemma TagsOfUptoStep(G: Board, i: int, j: int)
    requires IsBoard(G) && InRange(G) && InBoard(i, j)
    ensures TagsOf(Upto(G, 9 * i + j + 1)) == Marked(TagsOf(Upto(G, 9 * i + j)), i, j, G[i][j], true)
  {
    var H := Upto(G, 9 * i + j);
    SameBoard(Upto(G, 9 * i + j + 1), Place(H, i, j, G[i][j]));
    if G[i][j] == 0 {
      SameBoard(H, Place(H, i, j, 0));
    } else {
      TagsOfPlace(H, i, j, G[i][j]);
    }
  }

  /** Once every cell is counted, the partial board is the whole board. */
  lemma UptoAll(G: Board)
    requires IsBoard(G)
    ensures Upto(G, 81) == G
  {
    SameBoard(Upto(G, 81), G);
  }
}
