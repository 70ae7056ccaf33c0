/** The visual solver: backtracking from the first empty cell, trying the
    digits 1..9 in ascending order and stopping at the first full grid.
    The console display after each placement and each undo is not part of
    this model. */
module Solver {
  import opened Board
  import opened SolutionCounter

  datatype Option<T> = None | Some(value: T)

  /** The grid the search stops at: at the first empty cell, the first
      digit in ascending order that is safe and from which the search
      succeeds; None when no digit succeeds. */
  ghost function First(s: seq<int>): Option<seq<int>>
    requires |s| == 81
    decreases Empties(s), 1
  {
    var p := FirstEmpty(s);
    if p == 81 then Some(s) else FirstDigits(s, p, 1)
  }

  /** The search at empty position p restricted to the digits d..9. */
  ghost function FirstDigits(s: seq<int>, p: int, d: int): Option<seq<int>>
    requires |s| == 81 && 0 <= p < 81 && s[p] == 0 && 1 <= d <= 10
    decreases Empties(s), 0, 10 - d
  {
    if d == 10 then None
    else if Safe(s, p / 9, p % 9, d) && (FillShrinks(s, p, d); First(s[p := d]).Some?) then First(s[p := d])
    else FirstDigits(s, p, d + 1)
  }

  /** A digit that is unsafe, or from which the search fails, is passed over. */
  lemma FirstDigitsSkip(s: seq<int>, p: int, d: int)
    requires |s| == 81 && 0 <= p < 81 && s[p] == 0 && 1 <= d < 10
    requires Safe(s, p / 9, p % 9, d) ==> First(s[p := d]).None?
    ensures FirstDigits(s, p, d) == FirstDigits(s, p, d + 1)
  {
  }

  /** The first safe digit from which the search succeeds decides the result. */
  lemma FirstDigitsTake(s: seq<int>, p: int, d: int)
    requires |s| == 81 && 0 <= p < 81 && s[p] == 0 && 1 <= d < 10
    requires Safe(s, p / 9, p % 9, d) && First(s[p := d]).Some?
    ensures FirstDigits(s, p, d) == First(s[p := d])
  {
  }

  /** Row-major lexicographic order on grids: `a` is `b` or first differs
      from it by a smaller digit. */
  ghost predicate RowMajorLeq(a: seq<int>, b: seq<int>) {
    a == b || exists i :: 0 <= i < |a| && i < |b| && a[i] < b[i] && a[..i] == b[..i]
  }

  /** What the search stops at is one of the grids the exhaustive search
      reaches. */
  lemma {:induction false} FirstIsReached(s: seq<int>)
    requires |s| == 81 && First(s).Some?
    ensures First(s).value in Completions(s)
    decreases Empties(s), 1
  {
    var p := FirstEmpty(s);
    if p != 81 {
      FirstDigitsIsReached(s, p, 1);
    }
  }

  lemma {:induction false} FirstDigitsIsReached(s: seq<int>, p: int, d: int)
    requires |s| == 81 && 0 <= p < 81 && s[p] == 0 && 1 <= d <= 10 && FirstDigits(s, p, d).Some?
    ensures FirstDigits(s, p, d).value in CompletionsDigits(s, p, d)
    decreases Empties(s), 0, 10 - d
  {
    if Safe(s, p / 9, p % 9, d) && (FillShrinks(s, p, d); First(s[p := d]).Some?) {
      FirstIsReached(s[p := d]);
    } else {
      FirstDigitsIsReached(s, p, d + 1);
    }
  }

  /** Ascending order: the search stops at the least, in row-major order,
      of the grids the exhaustive search reaches; in particular it stops
      somewhere whenever one exists. */
  lemma {:induction false} FirstIsLeast(s: seq<int>, t: seq<int>)
    requires |s| == 81 && t in Completions(s)
    ensures First(s).Some? && RowMajorLeq(First(s).value, t)
    decreases Empties(s), 1
  {
    var p := FirstEmpty(s);
    if p != 81 {
      FirstDigitsIsLeast(s, p, 1, t);
    }
  }

  lemma {:induction false} FirstDigitsIsLeast(s: seq<int>, p: int, d: int, t: seq<int>)
    requires |s| == 81 && p == FirstEmpty(s) && p < 81 && 1 <= d <= 10
    requires t in CompletionsDigits(s, p, d)
    ensures FirstDigits(s, p, d).Some? && RowMajorLeq(FirstDigits(s, p, d).value, t)
    decreases Empties(s), 0, 10 - d
  {
    var safe := Safe(s, p / 9, p % 9, d);
    if safe {
      FillShrinks(s, p, d);
      if t in Completions(s[p := d]) {
        FirstIsLeast(s[p := d], t);
        return;
      }
    }
    CompletionsDigitsExtend(s, p, d + 1, t);
    if safe && First(s[p := d]).Some? {
      var f := First(s[p := d]).value;
      FirstIsReached(s[p := d]);
      CompletionsExtend(s[p := d], f);
      assert f[p] == d < t[p];
      assert f[..p] == t[..p] by {
        forall q | 0 <= q < p ensures f[q] == t[q] {
          assert s[q] != 0;
        }
      }
    } else {
      FirstDigitsIsLeast(s, p, d + 1, t);
    }
  }

  /** The search stops at a grid exactly when the count is positive. */
  lemma FirstIffCountPositive(s: seq<int>)
    requires |s| == 81
    ensures First(s).Some? <==> Count(s) > 0
  {
    CountIsSize(s);
    if First(s).Some? {
      FirstIsReached(s);
    }
    if Count(s) > 0 {
      var t :| t in Completions(s);
      FirstIsLeast(s, t);
    }
  }

  /** The grid the search stops at is full, keeps the digits it started
      from, and is valid when the start was. */
  lemma FirstIsFullExtension(s: seq<int>)
    requires |s| == 81 && First(s).Some?
    ensures Full(First(s).value) && Keeps(s, First(s).value)
    ensures Valid(s) ==> Valid(First(s).value)
  {
    FirstIsReached(s);
    CompletionsExtend(s, First(s).value);
    if Valid(s) {
      CompletionsValid(s, First(s).value);
    }
  }

  /** On a valid puzzle the search stops at a solution whenever one
      exists, and at the least one in row-major order. */
  lemma FirstIsLeastSolution(s: seq<int>)
    requires IsGrid(s) && Valid(s)
    ensures First(s).Some? <==> exists t :: IsCompletion(t, s)
    ensures First(s).Some? ==> IsCompletion(First(s).value, s)
    ensures First(s).Some? ==> forall t :: IsCompletion(t, s) ==> RowMajorLeq(First(s).value, t)
  {
    CountIsCompletions(s);
    if First(s).Some? {
      FirstIsReached(s);
      forall t | IsCompletion(t, s) ensures RowMajorLeq(First(s).value, t) {
        FirstIsLeast(s, t);
      }
    }
    if exists t :: IsCompletion(t, s) {
      var t :| IsCompletion(t, s);
      FirstIsLeast(s, t);
    }
  }

  /** Solving a puzzle with exactly one solution ends on that solution:
      a puzzle dug out of a full grid, with count 1, is solved back to
      the grid it was dug from. */
  lemma FirstFindsUniqueSolution(s: seq<int>, solution: seq<int>)
    requires IsGrid(s) && Valid(s) && Completions(s) == {solution}
    ensures First(s) == Some(solution)
  {
    CountIsSize(s);
    FirstIffCountPositive(s);
    FirstIsReached(s);
  }

  /** The solver.  It ends on the grid First describes, or, when there is
      none, restores its input; a full grid is returned at once, unchanged.
      By FirstIsFullExtension it writes only cells empty on entry, keeps a
      valid grid valid and on success leaves no empty cell. */
  method SolveVisual(g: array2<int>) returns (ok: bool)
    requires Is9x9(g)
    modifies g
    ensures ok <==> First(old(Cells(g))).Some?
    ensures ok ==> Cells(g) == First(old(Cells(g))).value
    ensures !ok ==> Cells(g) == old(Cells(g))
    ensures Full(old(Cells(g))) ==> ok && Cells(g) == old(Cells(g))
    decreases Empties(Cells(g))
  {
    ghost var s := Cells(g);
    for i := 0 to 9
      invariant Cells(g) == s
      invariant forall q :: 0 <= q < 9 * i ==> s[q] != 0
    {
      for j := 0 to 9
        invariant Cells(g) == s
        invariant forall q :: 0 <= q < 9 * i + j ==> s[q] != 0
      {
        if g[i, j] == 0 {
          ghost var p := Idx(i, j);
          assert s[p] == 0;
          RowCol(p, i, j);
          assert p / 9 == i && p % 9 == j;
          assert FirstEmpty(s) == p;
          ghost var result := FirstDigits(s, p, 1);
          for num := 1 to 10
            invariant Cells(g) == s
            invariant FirstDigits(s, p, num) == result
          {
            if !IsSafe(g, i, j, num) {
              FirstDigitsSkip(s, p, num);
              assert FirstDigits(s, p, num + 1) == result;
            } else {
              Write(g, i, j, num);
              FillShrinks(s, p, num);
              var found := SolveVisual(g);
              if found {
                FirstDigitsTake(s, p, num);
                return true;
              }
              FirstDigitsSkip(s, p, num);
              Write(g, i, j, 0);
              assert s[p := num][p := 0] == s;
              assert FirstDigits(s, p, num + 1) == result;
            }
          }
          return false;
        }
        assert s[Idx(i, j)] != 0;
      }
    }
    assert FirstEmpty(s) == 81;
    return true;
  }
}
