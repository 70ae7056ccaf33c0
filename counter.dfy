/** The solution counter: exhaustive backtracking from the first empty
    cell, trying every safe digit 1..9, recursing and undoing the digit.
    Count and Completions are the value-level specification of that search;
    the lemmas below prove that, on a valid grid, the count is exactly the
    number of valid completions. */
module SolutionCounter {
  import opened Board

  /** The first empty position at or after `from`, or |s| when none. */
  ghost function FirstEmptyFrom(s: seq<int>, from: nat): (q: nat)
    requires from <= |s|
    ensures from <= q <= |s|
    ensures q < |s| ==> s[q] == 0
    ensures forall i :: from <= i < q ==> s[i] != 0
    decreases |s| - from
  {
    if from == |s| then from
    else if s[from] == 0 then from
    else FirstEmptyFrom(s, from + 1)
  }

  ghost function FirstEmpty(s: seq<int>): nat
    requires |s| == 81
  {
    FirstEmptyFrom(s, 0)
  }

  /** Filling an empty cell shrinks the set of empty cells. */
  lemma FillShrinks(s: seq<int>, p: int, d: int)
    requires 0 <= p < |s| && s[p] == 0 && d != 0
    ensures Empties(s[p := d]) == Empties(s) - {p}
    ensures Empties(s[p := d]) < Empties(s)
  {
    assert p in Empties(s);
  }

  /** The number of completions the search reaches from `s`: a grid with no
      empty cell counts once; otherwise the counts of every safe digit at
      the first empty cell are added up. */
  ghost function Count(s: seq<int>): nat
    requires |s| == 81
    decreases Empties(s), 1
  {
    var p := FirstEmpty(s);
    if p == 81 then 1 else CountDigits(s, p, 1)
  }

  /** The part of the sum contributed by digits d..9 at position p. */
  ghost function CountDigits(s: seq<int>, p: int, d: int): nat
    requires |s| == 81 && 0 <= p < 81 && s[p] == 0 && 1 <= d <= 10
    decreases Empties(s), 0, 10 - d
  {
    if d == 10 then 0
    else
      (if Safe(s, p / 9, p % 9, d) then (FillShrinks(s, p, d); Count(s[p := d])) else 0)
      + CountDigits(s, p, d + 1)
  }

  /** One digit of the sum: digit d adds the count after placing it when
      it is safe, and nothing otherwise. */
  lemma CountDigitsStep(s: seq<int>, p: int, d: int)
    requires |s| == 81 && 0 <= p < 81 && s[p] == 0 && 1 <= d < 10
    ensures Safe(s, p / 9, p % 9, d) ==> CountDigits(s, p, d) == Count(s[p := d]) + CountDigits(s, p, d + 1)
    ensures !Safe(s, p / 9, p % 9, d) ==> CountDigits(s, p, d) == CountDigits(s, p, d + 1)
  {
  }

  /** The completions the search reaches from `s`, as a set. */
  ghost function Completions(s: seq<int>): set<seq<int>>
    requires |s| == 81
    decreases Empties(s), 1
  {
    var p := FirstEmpty(s);
    if p == 81 then {s} else CompletionsDigits(s, p, 1)
  }

  ghost function CompletionsDigits(s: seq<int>, p: int, d: int): set<seq<int>>
    requires |s| == 81 && 0 <= p < 81 && s[p] == 0 && 1 <= d <= 10
    decreases Empties(s), 0, 10 - d
  {
    if d == 10 then {}
    else
      (if Safe(s, p / 9, p % 9, d) then (FillShrinks(s, p, d); Completions(s[p := d])) else {})
      + CompletionsDigits(s, p, d + 1)
  }

  /** The position of (r, c) is p exactly when r and c are p's row and column. */
  lemma RowCol(p: int, r: int, c: int)
    requires 0 <= r < 9 && 0 <= c < 9
    ensures p == Idx(r, c) <==> (0 <= p < 81 && p / 9 == r && p % 9 == c)
  {
  }

  /** Every grid the search reaches keeps the digits of `s`. */
  lemma {:induction false} CompletionsExtend(s: seq<int>, t: seq<int>)
    requires |s| == 81 && t in Completions(s)
    ensures |t| == 81 && Full(t)
    ensures Keeps(s, t)
    decreases Empties(s), 1
  {
    var p := FirstEmpty(s);
    if p != 81 {
      CompletionsDigitsExtend(s, p, 1, t);
    }
  }

  lemma {:induction false} CompletionsDigitsExtend(s: seq<int>, p: int, d: int, t: seq<int>)
    requires |s| == 81 && 0 <= p < 81 && s[p] == 0 && 1 <= d <= 10
    requires t in CompletionsDigits(s, p, d)
    ensures |t| == 81 && Full(t) && d <= t[p] <= 9
    ensures forall q :: 0 <= q < 81 && s[q] != 0 ==> t[q] == s[q]
    decreases Empties(s), 0, 10 - d
  {
    if d < 10 {
      if Safe(s, p / 9, p % 9, d) && t in Completions(s[p := d]) {
        FillShrinks(s, p, d);
        CompletionsExtend(s[p := d], t);
      } else {
        CompletionsDigitsExtend(s, p, d + 1, t);
      }
    }
  }

  /** The search only places safe digits, so from a valid grid it reaches
      only valid grids. */
  lemma {:induction false} CompletionsValid(s: seq<int>, t: seq<int>)
    requires |s| == 81 && Valid(s) && t in Completions(s)
    ensures |t| == 81 && Valid(t)
    decreases Empties(s), 1
  {
    var p := FirstEmpty(s);
    if p != 81 {
      CompletionsDigitsValid(s, p, 1, t);
    }
  }

  lemma {:induction false} CompletionsDigitsValid(s: seq<int>, p: int, d: int, t: seq<int>)
    requires |s| == 81 && 0 <= p < 81 && s[p] == 0 && 1 <= d <= 10
    requires Valid(s) && t in CompletionsDigits(s, p, d)
    ensures |t| == 81 && Valid(t)
    decreases Empties(s), 0, 10 - d
  {
    var r, c := p / 9, p % 9;
    if Safe(s, r, c, d) && t in Completions(s[p := d]) {
      FillShrinks(s, p, d);
      RowCol(p, r, c);
      PlaceKeepsValid(s, r, c, d);
      CompletionsValid(s[p := d], t);
    } else {
      CompletionsDigitsValid(s, p, d + 1, t);
    }
  }

  /** The count is the number of grids the search reaches: the sets of
      different digits at the first empty cell are disjoint. */
  lemma {:induction false} CountIsSize(s: seq<int>)
    requires |s| == 81
    ensures Count(s) == |Completions(s)|
    decreases Empties(s), 1
  {
    var p := FirstEmpty(s);
    if p != 81 {
      CountDigitsIsSize(s, p, 1);
    }
  }

  lemma {:induction false} CountDigitsIsSize(s: seq<int>, p: int, d: int)
    requires |s| == 81 && 0 <= p < 81 && s[p] == 0 && 1 <= d <= 10
    ensures CountDigits(s, p, d) == |CompletionsDigits(s, p, d)|
    decreases Empties(s), 0, 10 - d
  {
    if d < 10 {
      CountDigitsIsSize(s, p, d + 1);
      var rest := CompletionsDigits(s, p, d + 1);
      if Safe(s, p / 9, p % 9, d) {
        FillShrinks(s, p, d);
        CountIsSize(s[p := d]);
        DigitsDisjoint(s, p, d);
      }
    }
  }

  /** The grids reached with digit d at p and those reached with a larger
      digit differ at p. */
  lemma DigitsDisjoint(s: seq<int>, p: int, d: int)
    requires |s| == 81 && 0 <= p < 81 && s[p] == 0 && 1 <= d < 10
    ensures Completions(s[p := d]) !! CompletionsDigits(s, p, d + 1)
  {
    var here, rest := Completions(s[p := d]), CompletionsDigits(s, p, d + 1);
    forall t | t in here && t in rest ensures false {
      CompletionsExtend(s[p := d], t);
      CompletionsDigitsExtend(s, p, d + 1, t);
    }
  }

  /** A grid with a valid completion is itself valid. */
  lemma SubgridValid(s: seq<int>, t: seq<int>)
    requires IsCompletion(t, s)
    ensures Valid(s)
  {
    forall r1, c1, r2, c2 |
      0 <= r1 < 9 && 0 <= c1 < 9 && 0 <= r2 < 9 && 0 <= c2 < 9 &&
      (r1 != r2 || c1 != c2) && SameUnit(r1, c1, r2, c2) && At(s, r1, c1) != 0
      ensures At(s, r1, c1) != At(s, r2, c2)
    {
      assert At(t, r1, c1) == At(s, r1, c1);
      assert At(t, r1, c1) != At(t, r2, c2);
    }
  }

  /** Every grid the search reaches from a valid grid is a valid
      completion of it. */
  lemma {:induction false} CompletionsSound(s: seq<int>, t: seq<int>)
    requires IsGrid(s) && Valid(s) && t in Completions(s)
    ensures IsCompletion(t, s)
    decreases Empties(s), 1
  {
    var p := FirstEmpty(s);
    if p == 81 {
      assert t == s;
    } else {
      CompletionsDigitsSound(s, p, 1, t);
    }
  }

  lemma {:induction false} CompletionsDigitsSound(s: seq<int>, p: int, d: int, t: seq<int>)
    requires IsGrid(s) && Valid(s) && 0 <= p < 81 && s[p] == 0 && 1 <= d <= 10
    requires t in CompletionsDigits(s, p, d)
    ensures IsCompletion(t, s)
    decreases Empties(s), 0, 10 - d
  {
    if d < 10 {
      if Safe(s, p / 9, p % 9, d) && t in Completions(s[p := d]) {
        var r, c := p / 9, p % 9;
        assert p == Idx(r, c);
        PlaceKeepsValid(s, r, c, d);
        FillShrinks(s, p, d);
        CompletionsSound(s[p := d], t);
      } else {
        CompletionsDigitsSound(s, p, d + 1, t);
      }
    }
  }

  /** Every valid completion of `s` is reached by the search. */
  lemma {:induction false} CompletionsComplete(s: seq<int>, t: seq<int>)
    requires IsCompletion(t, s)
    ensures t in Completions(s)
    decreases Empties(s), 1
  {
    var p := FirstEmpty(s);
    if p == 81 {
      assert t == s;
    } else {
      var r, c, e := p / 9, p % 9, t[p];
      assert p == Idx(r, c);
      assert Safe(s, r, c, e) by {
        forall r', c' | 0 <= r' < 9 && 0 <= c' < 9 && SameUnit(r', c', r, c)
          ensures At(s, r', c') != e
        {
          if At(s, r', c') != 0 && (r' != r || c' != c) {
            assert At(t, r', c') == At(s, r', c');
            assert SameUnit(r, c, r', c');
            assert At(t, r, c) != At(t, r', c');
          }
        }
      }
      FillShrinks(s, p, e);
      CompletionsComplete(s[p := e], t);
      CompletionsDigitsHas(s, p, 1, e, t);
    }
  }

  lemma {:induction false} CompletionsDigitsHas(s: seq<int>, p: int, d: int, e: int, t: seq<int>)
    requires |s| == 81 && 0 <= p < 81 && s[p] == 0 && 1 <= d <= e <= 9
    requires Safe(s, p / 9, p % 9, e) && t in Completions(s[p := e])
    ensures t in CompletionsDigits(s, p, d)
    decreases e - d
  {
    if d < e {
      CompletionsDigitsHas(s, p, d + 1, e, t);
    }
  }

  /** On a valid grid the search reaches exactly the valid completions, and
      the count is how many there are. */
  lemma CountIsCompletions(s: seq<int>)
    requires IsGrid(s) && Valid(s)
    ensures forall t :: t in Completions(s) <==> IsCompletion(t, s)
    ensures Count(s) == |Completions(s)|
  {
    forall t ensures t in Completions(s) <==> IsCompletion(t, s) {
      if t in Completions(s) {
        CompletionsSound(s, t);
      }
      if IsCompletion(t, s) {
        CompletionsComplete(s, t);
      }
    }
    CountIsSize(s);
  }

  /** A grid has a solution exactly when its count is positive. */
  lemma SolvableIffCountPositive(s: seq<int>)
    requires IsGrid(s) && Valid(s)
    ensures Count(s) > 0 <==> exists t :: IsCompletion(t, s)
  {
    CountIsCompletions(s);
    if Count(s) > 0 {
      var t :| t in Completions(s);
    }
  }

  /** A set holding `t` has one element exactly when `t` is its only element. */
  lemma SingleElement<T>(C: set<T>, t: T)
    requires t in C
    ensures |C| == 1 <==> forall u :: u in C ==> u == t
  {
    if |C| == 1 {
      var rest := C - {t};
      assert C == rest + {t} && t !in rest;
      assert rest == {};
    }
    if forall u :: u in C ==> u == t {
      assert C == {t};
    }
  }

  ghost predicate UniquelySolvable(s: seq<int>) {
    exists t :: IsCompletion(t, s) && forall u :: IsCompletion(u, s) ==> u == t
  }

  /** The uniqueness test of the digger: a count of 1 means exactly one
      solution, and any other count means none or several. */
  lemma UniqueIffCountOne(s: seq<int>)
    requires IsGrid(s) && Valid(s)
    ensures Count(s) == 1 <==> UniquelySolvable(s)
  {
    CountIsCompletions(s);
    var C := Completions(s);
    if Count(s) == 1 {
      var t :| t in C;
      SingleElement(C, t);
      assert IsCompletion(t, s);
    }
    if UniquelySolvable(s) {
      var t :| IsCompletion(t, s) && forall u :: IsCompletion(u, s) ==> u == t;
      assert t in C;
      SingleElement(C, t);
    }
  }

  /** Two solutions of a puzzle whose count is 1 are the same grid. */
  lemma CountOneSolutionIsUnique(s: seq<int>, t: seq<int>, u: seq<int>)
    requires IsGrid(s) && Valid(s) && Count(s) == 1
    requires IsCompletion(t, s) && IsCompletion(u, s)
    ensures t == u
  {
    UniqueIffCountOne(s);
  }

  /** The inner `solve` of the counter: adds to `count` the number of
      completions of the grid and leaves the grid as it found it. */
  method Solve(g: array2<int>, count: nat) returns (total: nat)
    requires Is9x9(g)
    modifies g
    ensures Cells(g) == old(Cells(g))
    ensures total == count + Count(old(Cells(g)))
    decreases Empties(Cells(g))
  {
    ghost var s := Cells(g);
    for i := 0 to 9
      invariant Cells(g) == s
      invariant forall q :: 0 <= q < 9 * i ==> s[q] != 0
    {
      for j := 0 to 9
        invariant Cells(g) == s
        invariant forall q :: 0 <= q < 9 * i + j ==> s[q] != 0
      {
        if g[i, j] == 0 {
          ghost var p := Idx(i, j);
          assert s[p] == 0;
          RowCol(p, i, j);
          assert p / 9 == i && p % 9 == j;
          assert FirstEmpty(s) == p;
          total := count;
          for num := 1 to 10
            invariant Cells(g) == s
            invariant total + CountDigits(s, p, num) == count + CountDigits(s, p, 1)
          {
            CountDigitsStep(s, p, num);
            if IsSafe(g, i, j, num) {
              Write(g, i, j, num);
              FillShrinks(s, p, num);
              total := Solve(g, total);
              Write(g, i, j, 0);
              assert s[p := num][p := 0] == s;
            }
          }
          return;
        }
        assert s[Idx(i, j)] != 0;
      }
    }
    assert FirstEmpty(s) == 81;
    total := count + 1;
    if total > 1 {
      return;
    }
  }

  /** The number of completions of the grid; the grid ends unchanged.  On a
      full grid the result is 1. */
  method CountSolutions(g: array2<int>) returns (n: nat)
    requires Is9x9(g)
    modifies g
    ensures Cells(g) == old(Cells(g))
    ensures n == Count(old(Cells(g)))
    ensures Full(old(Cells(g))) ==> n == 1
  {
    n := Solve(g, 0);
    if Full(Cells(g)) {
      assert FirstEmpty(Cells(g)) == 81;
    }
  }
}
