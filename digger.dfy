/** The puzzle generator: a full grid is produced by the filling phase, then
    digits are dug out one at a time, each removal kept only when the
    puzzle still has exactly one solution.  The source picks the cells to
    dig at random; here they are an input sequence of positions. */
module Digger {
  import opened Board
  import opened SolutionCounter
  import opened Filler

  /** A full valid grid is a solution of every puzzle dug out of it. */
  lemma DugHasSolution(s: seq<int>, t: seq<int>)
    requires Keeps(t, s) && Valid(s)
    requires forall p :: 0 <= p < 81 ==> 1 <= s[p] <= 9
    ensures IsGrid(t) && IsCompletion(s, t)
  {
  }

  /** Digging keeps a grid well-formed and valid. */
  lemma DugKeeps(s: seq<int>, t: seq<int>)
    requires Keeps(t, s) && IsGrid(s) && Valid(s)
    ensures IsGrid(t) && Valid(t)
  {
    forall r1, c1, r2, c2 |
      0 <= r1 < 9 && 0 <= c1 < 9 && 0 <= r2 < 9 && 0 <= c2 < 9 &&
      (r1 != r2 || c1 != c2) && SameUnit(r1, c1, r2, c2) && At(t, r1, c1) != 0
      ensures At(t, r1, c1) != At(t, r2, c2)
    {
      assert At(t, r1, c1) == At(s, r1, c1);
    }
  }

  /** The grid right after the diagonal seeding of an empty grid: digits
      in the diagonal boxes, every other cell empty, and valid. */
  lemma SeededGrid(s: seq<int>, boxes: seq<seq<int>>)
    requires |s| == 81 && BoxPerms(boxes)
    requires forall r, c :: 0 <= r < 9 && 0 <= c < 9 ==>
      At(s, r, c) == if InDiagonalBox(r, c) then DiagonalDigit(boxes, r, c) else 0
    ensures IsGrid(s) && Valid(s) && PendingEmpty(s, 0, 0)
    ensures forall r, c :: 0 <= r < 9 && 0 <= c < 9 && InDiagonalBox(r, c) ==> 1 <= At(s, r, c) <= 9
  {
    DiagonalIsValid(s, boxes);
    forall r, c | 0 <= r < 9 && 0 <= c < 9 ensures 0 <= At(s, r, c) <= 9 {
      if InDiagonalBox(r, c) {
        DiagonalDigitRange(boxes, r, c);
      }
    }
    forall p | 0 <= p < 81 ensures 0 <= s[p] <= 9 {
      var r, c := p / 9, p % 9;
      assert p == Idx(r, c);
      assert s[p] == At(s, r, c);
    }
  }

  /** After the backtracking step from (0, 0) on the seeded grid: a grid
      of digits and empty cells, full when the step succeeded. */
  lemma FilledGrid(s1: seq<int>, s2: seq<int>, filled: bool)
    requires IsGrid(s1) && |s2| == 81 && Untouched(s2, s1, 0, 0)
    requires forall r, c :: 0 <= r < 9 && 0 <= c < 9 && InDiagonalBox(r, c) ==> 1 <= At(s1, r, c) <= 9
    requires filled ==> PendingFilled(s2, 0, 0)
    requires !filled ==> s2 == s1
    ensures IsGrid(s2)
    ensures filled ==> forall p :: 0 <= p < 81 ==> 1 <= s2[p] <= 9
  {
    if filled {
      forall p | 0 <= p < 81 ensures 1 <= s2[p] <= 9 {
        var r, c := p / 9, p % 9;
        assert p == Idx(r, c);
        if InDiagonalBox(r, c) {
          assert !Pending(0, 0, r, c);
        } else {
          assert Pending(0, 0, r, c);
        }
      }
    }
  }

  /** Emptying one more cell keeps a dug grid dug. */
  lemma DugClear(s0: seq<int>, s: seq<int>, p: int)
    requires Keeps(s, s0) && 0 <= p < 81
    ensures Keeps(s[p := 0], s0)
  {
  }

  /** Emptying a filled cell adds exactly that cell to the empty ones. */
  lemma ClearGrows(s: seq<int>, p: int)
    requires 0 <= p < |s| && s[p] != 0
    ensures Empties(s[p := 0]) == Empties(s) + {p}
    ensures |Empties(s[p := 0])| == |Empties(s)| + 1
  {
    assert p !in Empties(s);
  }

  /** A full grid has exactly one completion: itself. */
  lemma FullCountsOne(s: seq<int>)
    requires |s| == 81 && Full(s)
    ensures Count(s) == 1
  {
    assert FirstEmpty(s) == 81;
  }

  /** The copy `[row[:] for row in grid]`: a new grid with the same cells. */
  method CopyGrid(g: array2<int>) returns (t: array2<int>)
    requires Is9x9(g)
    ensures fresh(t) && Is9x9(t)
    ensures Cells(t) == Cells(g)
  {
    t := new int[9, 9];
    for i := 0 to 9
      invariant forall r, c :: 0 <= r < i && 0 <= c < 9 ==> t[r, c] == g[r, c]
    {
      for j := 0 to 9
        invariant forall r, c :: 0 <= r < i && 0 <= c < 9 ==> t[r, c] == g[r, c]
        invariant forall c :: 0 <= c < j ==> t[i, c] == g[i, c]
      {
        t[i, j] := g[i, j];
      }
    }
    CellsExt(t, Cells(g));
  }

  /** Digs out up to k digits at the positions `picks`, in order.  A pick
      at an empty cell is skipped; a removal is undone unless the counter
      then finds exactly one solution, and otherwise uses up one attempt.
      The result is the number of attempts left (0 when k digits were dug,
      k itself when k <= 0). */
  method RemoveKDigitsUnique(g: array2<int>, k: int, picks: seq<(int, int)>) returns (left: int)
    requires Is9x9(g)
    requires forall n :: 0 <= n < |picks| ==> 0 <= picks[n].0 < 9 && 0 <= picks[n].1 < 9
    modifies g
    ensures k <= 0 ==> left == k && Cells(g) == old(Cells(g))
    ensures k > 0 ==> 0 <= left <= k
    ensures Keeps(Cells(g), old(Cells(g)))
    ensures k > 0 ==> |Empties(Cells(g))| == |Empties(old(Cells(g)))| + (k - left)
    ensures left < k || Count(old(Cells(g))) == 1 ==> Count(Cells(g)) == 1
  {
    ghost var s0 := Cells(g);
    left := k;
    var n := 0;
    while left > 0 && n < |picks|
      invariant 0 <= n <= |picks|
      invariant k <= 0 ==> left == k && Cells(g) == s0
      invariant k > 0 ==> 0 <= left <= k
      invariant Keeps(Cells(g), s0)
      invariant k > 0 ==> |Empties(Cells(g))| == |Empties(s0)| + (k - left)
      invariant left < k || Count(s0) == 1 ==> Count(Cells(g)) == 1
      decreases |picks| - n
    {
      var i, j := picks[n].0, picks[n].1;
      n := n + 1;
      if g[i, j] == 0 {
        continue;
      }
      var backup := g[i, j];
      ghost var before := Cells(g);
      Write(g, i, j, 0);
      var temp := CopyGrid(g);
      var cnt := CountSolutions(temp);
      if cnt != 1 {
        Write(g, i, j, backup);
        assert before[Idx(i, j) := 0][Idx(i, j) := backup] == before;
      } else {
        ClearGrows(before, Idx(i, j));
        DugClear(s0, before, Idx(i, j));
        left := left - 1;
      }
    }
  }

  /** The generator: an empty grid, the diagonal boxes seeded from `boxes`,
      the rest filled by backtracking from `draws`, then digits dug out at
      `picks`.  `filled` is the filling phase's outcome and `left` the
      digging attempts left.  Once filled, the grid before digging is a
      solution of the puzzle and its only one; when all k attempts were
      used, exactly k cells are empty. */
  method GenerateUniqueSudoku(k: int, boxes: seq<seq<int>>, draws: nat -> seq<int>, picks: seq<(int, int)>)
    returns (g: array2<int>, ghost solution: seq<int>, filled: bool, left: int)
    requires BoxPerms(boxes) && forall n :: IsPermutation(draws(n))
    requires forall n :: 0 <= n < |picks| ==> 0 <= picks[n].0 < 9 && 0 <= picks[n].1 < 9
    ensures fresh(g) && Is9x9(g)
    ensures IsGrid(Cells(g)) && Valid(Cells(g))
    ensures filled ==> Full(solution) && IsCompletion(solution, Cells(g))
    ensures filled ==> Completions(Cells(g)) == {solution} && Count(Cells(g)) == 1
    ensures filled && k >= 0 && left == 0 ==> |Empties(Cells(g))| == k
  {
    g := new int[9, 9]((r, c) => 0);
    FillDiagonal(g, boxes);
    ghost var seeded := Cells(g);
    SeededGrid(seeded, boxes);
    var used;
    filled, used := FillRemaining(g, 0, 0, draws, 0);
    solution := Cells(g);
    FilledGrid(seeded, solution, filled);
    left := RemoveKDigitsUnique(g, k, picks);
    ghost var puzzle := Cells(g);
    DugKeeps(solution, puzzle);
    if filled {
      DugHasSolution(solution, puzzle);
      FullCountsOne(solution);
      CountIsCompletions(puzzle);
      SingleElement(Completions(puzzle), solution);
      assert Completions(puzzle) == {solution};
      if k == 0 {
        assert Empties(puzzle) == {};
      }
    }
  }
}
