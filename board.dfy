/** The 9x9 board and the placement rule shared by every search in the
    program.  A grid is a 9x9 array of integers where 0 is an empty cell and
    1..9 are placed digits.  Specifications talk about a grid through its
    row-major snapshot, a sequence of 81 cells. */
module Board {

  /** Position of cell (r, c) in the row-major snapshot. */
  function Idx(r: int, c: int): int { 9 * r + c }

  predicate Is9x9(g: array2<int>) { g.Length0 == 9 && g.Length1 == 9 }

  /** The value of cell (r, c) of a snapshot. */
  function At(s: seq<int>, r: int, c: int): int
    requires |s| == 81 && 0 <= r < 9 && 0 <= c < 9
  {
    s[Idx(r, c)]
  }

  /** Two cells constrain each other when they share a row, a column or
      one of the nine 3x3 boxes. */
  predicate SameUnit(r1: int, c1: int, r2: int, c2: int) {
    r1 == r2 || c1 == c2 || (r1 / 3 == r2 / 3 && c1 / 3 == c2 / 3)
  }

  /** Every cell holds 0 (empty) or a digit 1..9. */
  ghost predicate IsGrid(s: seq<int>) {
    |s| == 81 && forall p :: 0 <= p < 81 ==> 0 <= s[p] <= 9
  }

  /** No cell is empty. */
  ghost predicate Full(s: seq<int>) {
    forall p :: 0 <= p < |s| ==> s[p] != 0
  }

  /** The positions of the empty cells. */
  ghost function Empties(s: seq<int>): set<int> {
    set p | 0 <= p < |s| && s[p] == 0
  }

  /** `num` occurs in no cell of the row, column or box of (row, col);
      the cell (row, col) itself is one of those cells. */
  ghost predicate Safe(s: seq<int>, row: int, col: int, num: int)
    requires |s| == 81
  {
    forall r, c :: 0 <= r < 9 && 0 <= c < 9 && SameUnit(r, c, row, col) ==> At(s, r, c) != num
  }

  /** The grid invariant: no two distinct cells of one row, column or box
      hold the same digit. */
  ghost predicate Valid(s: seq<int>)
    requires |s| == 81
  {
    forall r1, c1, r2, c2 ::
      0 <= r1 < 9 && 0 <= c1 < 9 && 0 <= r2 < 9 && 0 <= c2 < 9 &&
      (r1 != r2 || c1 != c2) && SameUnit(r1, c1, r2, c2) && At(s, r1, c1) != 0
      ==> At(s, r1, c1) != At(s, r2, c2)
  }

  /** `t` keeps every digit of `s`: only cells empty in `s` may differ. */
  ghost predicate Keeps(s: seq<int>, t: seq<int>) {
    |s| == 81 && |t| == 81 && forall p :: 0 <= p < 81 && s[p] != 0 ==> t[p] == s[p]
  }

  /** `t` is a solution of puzzle `s`: a full valid grid that keeps every
      digit given in `s`. */
  ghost predicate IsCompletion(t: seq<int>, s: seq<int>) {
    |t| == 81 && |s| == 81 &&
    (forall p :: 0 <= p < 81 ==> 1 <= t[p] <= 9) &&
    Valid(t) && Keeps(s, t)
  }

  /** The row-major snapshot of a grid. */
  ghost function Cells(g: array2<int>): (s: seq<int>)
    requires Is9x9(g)
    reads g
    ensures |s| == 81
    ensures forall r, c {:trigger At(s, r, c)} :: 0 <= r < 9 && 0 <= c < 9 ==> At(s, r, c) == g[r, c]
  {
    seq(81, p requires 0 <= p < 81 reads g => g[p / 9, p % 9])
  }

  /** Each cell of the grid read through its snapshot. */
  lemma CellsRead(g: array2<int>)
    requires Is9x9(g)
    ensures forall r, c :: 0 <= r < 9 && 0 <= c < 9 ==> g[r, c] == At(Cells(g), r, c)
  {
  }

  /** The assignment of one cell, `grid[r][c] = v` in the source, seen
      through the snapshot. */
  method Write(g: array2<int>, r: int, c: int, v: int)
    requires Is9x9(g) && 0 <= r < 9 && 0 <= c < 9
    modifies g
    ensures Cells(g) == old(Cells(g))[Idx(r, c) := v]
    ensures g[r, c] == v
    ensures forall r', c' :: 0 <= r' < 9 && 0 <= c' < 9 && (r' != r || c' != c) ==> g[r', c'] == old(g[r', c'])
  {
    ghost var before := Cells(g);
    g[r, c] := v;
    CellsExt(g, before[Idx(r, c) := v]);
  }

  /** A sequence that agrees with the grid cell by cell is its snapshot. */
  lemma CellsExt(g: array2<int>, s: seq<int>)
    requires Is9x9(g) && |s| == 81
    requires forall r, c :: 0 <= r < 9 && 0 <= c < 9 ==> At(s, r, c) == g[r, c]
    ensures Cells(g) == s
  {
    forall p | 0 <= p < 81 ensures Cells(g)[p] == s[p] {
      var r, c := p / 9, p % 9;
      assert p == Idx(r, c);
    }
  }

  /** The safety check of the source: `num` is absent from row `row`, from
      column `col` and from the 3x3 box whose top-left corner is
      (row / 3 * 3, col / 3 * 3).  It only reads the grid. */
  function IsSafe(g: array2<int>, row: int, col: int, num: int): (safe: bool)
    requires Is9x9(g) && 0 <= row < 9 && 0 <= col < 9
    reads g
    ensures safe <==> Safe(Cells(g), row, col, num)
  {
    var boxRow, boxCol := row / 3 * 3, col / 3 * 3;
    CellsRead(g);
    && (forall j :: 0 <= j < 9 ==> g[row, j] != num)
    && (forall i :: 0 <= i < 9 ==> g[i, col] != num)
    && (forall i, j :: boxRow <= i < boxRow + 3 && boxCol <= j < boxCol + 3 ==> g[i, j] != num)
  }

  /** Writing a safe digit keeps the grid valid, whatever the cell held. */
  lemma PlaceKeepsValid(s: seq<int>, row: int, col: int, num: int)
    requires |s| == 81 && 0 <= row < 9 && 0 <= col < 9
    requires Valid(s) && Safe(s, row, col, num)
    ensures Valid(s[Idx(row, col) := num])
  {
    var s' := s[Idx(row, col) := num];
    forall r1, c1, r2, c2 |
      0 <= r1 < 9 && 0 <= c1 < 9 && 0 <= r2 < 9 && 0 <= c2 < 9 &&
      (r1 != r2 || c1 != c2) && SameUnit(r1, c1, r2, c2) && At(s', r1, c1) != 0
      ensures At(s', r1, c1) != At(s', r2, c2)
    {
      if r1 == row && c1 == col {
        assert At(s, r2, c2) != num;
      } else if r2 == row && c2 == col {
        assert SameUnit(r2, c2, r1, c1);
        assert At(s, r1, c1) != num;
      }
    }
  }

  /** Emptying a cell keeps the grid valid. */
  lemma ClearKeepsValid(s: seq<int>, row: int, col: int)
    requires |s| == 81 && 0 <= row < 9 && 0 <= col < 9
    requires Valid(s)
    ensures Valid(s[Idx(row, col) := 0])
  {
    var s' := s[Idx(row, col) := 0];
    forall r1, c1, r2, c2 |
      0 <= r1 < 9 && 0 <= c1 < 9 && 0 <= r2 < 9 && 0 <= c2 < 9 &&
      (r1 != r2 || c1 != c2) && SameUnit(r1, c1, r2, c2) && At(s', r1, c1) != 0
      ensures At(s', r1, c1) != At(s', r2, c2)
    {
      assert At(s', r1, c1) == At(s, r1, c1);
    }
  }
}
