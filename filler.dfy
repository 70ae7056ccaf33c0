/** The generator's filling phase.  The three diagonal boxes are seeded
    from permutations of 1..9, then the remaining cells are completed in
    row-major order by backtracking.  The source draws its permutations at
    random; here they are inputs: one permutation per diagonal box, and a
    stream `draws` of permutations, one per call of the backtracking step. */
module Filler {
  import opened Board

  /** The nine digits 1..9, each exactly once. */
  predicate IsPermutation(nums: seq<int>) {
    |nums| == 9 &&
    (forall k :: 0 <= k < 9 ==> 1 <= nums[k] <= 9) &&
    (forall k, l :: 0 <= k < l < 9 ==> nums[k] != nums[l])
  }

  /** One permutation for each of the three diagonal boxes. */
  predicate BoxPerms(boxes: seq<seq<int>>) {
    |boxes| == 3 && forall b {:trigger boxes[b]} :: 0 <= b < 3 ==> IsPermutation(boxes[b])
  }

  /** Cell (r, c) lies in one of the boxes (0,0), (3,3), (6,6). */
  predicate InDiagonalBox(r: int, c: int) {
    (r < 3 && c < 3) || (3 <= r < 6 && 3 <= c < 6) || (6 <= r && 6 <= c)
  }

  /** Writes `nums` row by row into the 3x3 box with top-left corner
      (row, col); no other cell changes. */
  method FillBox(g: array2<int>, row: int, col: int, nums: seq<int>)
    requires Is9x9(g) && 0 <= row <= 6 && 0 <= col <= 6 && |nums| == 9
    modifies g
    ensures forall r, c :: row <= r < row + 3 && col <= c < col + 3 ==> g[r, c] == nums[3 * (r - row) + (c - col)]
    ensures forall r, c :: 0 <= r < 9 && 0 <= c < 9 && !(row <= r < row + 3 && col <= c < col + 3) ==> g[r, c] == old(g[r, c])
  {
    var idx := 0;
    for i := 0 to 3
      invariant idx == 3 * i
      invariant forall r, c :: row <= r < row + i && col <= c < col + 3 ==> g[r, c] == nums[3 * (r - row) + (c - col)]
      invariant forall r, c :: 0 <= r < 9 && 0 <= c < 9 && !(row <= r < row + i && col <= c < col + 3) ==> g[r, c] == old(g[r, c])
    {
      for j := 0 to 3
        invariant idx == 3 * i + j
        invariant forall r, c :: row <= r < row + i && col <= c < col + 3 ==> g[r, c] == nums[3 * (r - row) + (c - col)]
        invariant forall r, c :: r == row + i && col <= c < col + j ==> g[r, c] == nums[3 * (r - row) + (c - col)]
        invariant forall r, c :: 0 <= r < 9 && 0 <= c < 9 && !(row <= r < row + i && col <= c < col + 3) && !(r == row + i && col <= c < col + j) ==> g[r, c] == old(g[r, c])
      {
        Write(g, row + i, col + j, nums[idx]);
        idx := idx + 1;
      }
    }
  }

  /** The digit the diagonal seeding puts at (r, c): entry 3 * (r % 3) + c % 3
      of the permutation of box r / 3. */
  function DiagonalDigit(boxes: seq<seq<int>>, r: int, c: int): int
    requires BoxPerms(boxes) && 0 <= r < 9 && 0 <= c < 9
  {
    boxes[r / 3][3 * (r % 3) + c % 3]
  }

  /** The seeding puts digits only. */
  lemma DiagonalDigitRange(boxes: seq<seq<int>>, r: int, c: int)
    requires BoxPerms(boxes) && 0 <= r < 9 && 0 <= c < 9
    ensures 1 <= DiagonalDigit(boxes, r, c) <= 9
  {
    assert IsPermutation(boxes[r / 3]);
  }

  /** A grid whose only digits are the diagonal boxes, each filled from a
      permutation, is valid: the three boxes share no row, column or box. */
  lemma DiagonalIsValid(s: seq<int>, boxes: seq<seq<int>>)
    requires |s| == 81 && BoxPerms(boxes)
    requires forall r, c :: 0 <= r < 9 && 0 <= c < 9 ==>
      At(s, r, c) == if InDiagonalBox(r, c) then DiagonalDigit(boxes, r, c) else 0
    ensures Valid(s)
  {
    forall r1, c1, r2, c2 |
      0 <= r1 < 9 && 0 <= c1 < 9 && 0 <= r2 < 9 && 0 <= c2 < 9 &&
      (r1 != r2 || c1 != c2) && SameUnit(r1, c1, r2, c2) && At(s, r1, c1) != 0
      ensures At(s, r1, c1) != At(s, r2, c2)
    {
      if At(s, r2, c2) != 0 {
        assert InDiagonalBox(r1, c1) && InDiagonalBox(r2, c2);
        var i := if r1 < 3 then 0 else if r1 < 6 then 3 else 6;
        DiagonalBoxCell(boxes, i, r1, c1);
        DiagonalBoxCell(boxes, i, r2, c2);
        assert i <= r2 < i + 3 && i <= c2 < i + 3;
        var k1, k2 := 3 * (r1 - i) + (c1 - i), 3 * (r2 - i) + (c2 - i);
        assert k1 != k2;
        assert boxes[i / 3][k1] != boxes[i / 3][k2];
      }
    }
  }

  /** The cells of the diagonal box with corner (i, i), and the digit the
      seeding puts in each. */
  lemma DiagonalBoxCell(boxes: seq<seq<int>>, i: int, r: int, c: int)
    requires BoxPerms(boxes) && (i == 0 || i == 3 || i == 6) && 0 <= r < 9 && 0 <= c < 9
    ensures (InDiagonalBox(r, c) && i <= r < i + 3) <==> (i <= r < i + 3 && i <= c < i + 3)
    ensures i <= r < i + 3 && i <= c < i + 3 ==> DiagonalDigit(boxes, r, c) == boxes[i / 3][3 * (r - i) + (c - i)]
  {
  }

  /** Seeds the boxes (0,0), (3,3) and (6,6) from `boxes`; nothing outside
      them changes.  When every other cell was empty, the result is valid. */
  method FillDiagonal(g: array2<int>, boxes: seq<seq<int>>)
    requires Is9x9(g) && BoxPerms(boxes)
    modifies g
    ensures forall r, c :: 0 <= r < 9 && 0 <= c < 9 && InDiagonalBox(r, c) ==> g[r, c] == DiagonalDigit(boxes, r, c)
    ensures forall r, c :: 0 <= r < 9 && 0 <= c < 9 && !InDiagonalBox(r, c) ==> g[r, c] == old(g[r, c])
    ensures (forall r, c :: 0 <= r < 9 && 0 <= c < 9 && !InDiagonalBox(r, c) ==> old(g[r, c]) == 0) ==> Valid(Cells(g))
  {
    var i := 0;
    while i < 9
      invariant 0 <= i <= 9 && i % 3 == 0
      invariant forall r, c :: 0 <= r < i && 0 <= c < 9 && InDiagonalBox(r, c) ==> g[r, c] == DiagonalDigit(boxes, r, c)
      invariant forall r, c :: 0 <= r < 9 && 0 <= c < 9 && !(r < i && InDiagonalBox(r, c)) ==> g[r, c] == old(g[r, c])
    {
      FillBox(g, i, i, boxes[i / 3]);
      forall r, c | 0 <= r < 9 && 0 <= c < 9 {
        DiagonalBoxCell(boxes, i, r, c);
      }
      i := i + 3;
    }
    if forall r, c :: 0 <= r < 9 && 0 <= c < 9 && !InDiagonalBox(r, c) ==> old(g[r, c]) == 0 {
      DiagonalIsValid(Cells(g), boxes);
    }
  }

  /** A position from which the backtracking step may start: (0, 0), or the
      position just right of a cell outside the diagonal boxes (column 9
      standing for the start of the next row). */
  predicate Entry(row: int, col: int) {
    0 <= row < 9 && 0 <= col <= 9 && (col == 0 || !InDiagonalBox(row, col - 1))
  }

  /** The skip logic at the head of the backtracking step: wrap past the
      end of a row, then jump over the diagonal box of the row.  The result
      is the cell to fill, or (9, 0) when every row is done.  It is the
      first cell outside the diagonal boxes at or after (row, col). */
  function Skip(row: int, col: int): (next: (int, int))
    requires Entry(row, col)
    ensures next.0 == 9 ==> next.1 == 0
    ensures next.0 < 9 ==> 0 <= next.0 && 0 <= next.1 < 9 && !InDiagonalBox(next.0, next.1)
    ensures Idx(row, col) <= Idx(next.0, next.1)
    ensures forall r, c :: 0 <= r < 9 && 0 <= c < 9 && Idx(row, col) <= Idx(r, c) < Idx(next.0, next.1) ==> InDiagonalBox(r, c)
  {
    var (r, c) := if col >= 9 then (row + 1, 0) else (row, col);
    if r >= 9 then (9, 0)
    else if r < 3 then (if c < 3 then (r, 3) else (r, c))
    else if r < 6 then (if c == r / 3 * 3 then (r, c + 3) else (r, c))
    else if c == 6 then (r + 1, 0)
    else (r, c)
  }

  /** The cells the backtracking step fills, in order, starting from (row, col). */
  ghost function Trail(row: int, col: int): seq<(int, int)>
    requires Entry(row, col)
    decreases 81 - Idx(row, col)
  {
    var next := Skip(row, col);
    if next.0 == 9 then [] else [next] + Trail(next.0, next.1 + 1)
  }

  /** Two positions of the board are the same cell exactly when their
      row-major positions are equal. */
  lemma IdxInjective(r1: int, c1: int, r2: int, c2: int)
    requires 0 <= c1 < 9 && 0 <= c2 < 9
    ensures Idx(r1, c1) == Idx(r2, c2) <==> r1 == r2 && c1 == c2
  {
  }

  /** The skip logic visits every cell outside the diagonal boxes from
      (row, col) on, and nothing else. */
  lemma {:induction false} TrailCells(row: int, col: int)
    requires Entry(row, col)
    ensures forall x :: x in Trail(row, col) <==> Pending(row, col, x.0, x.1)
    decreases 81 - Idx(row, col)
  {
    var next := Skip(row, col);
    if next.0 == 9 {
      assert Trail(row, col) == [];
    } else {
      var rest := Trail(next.0, next.1 + 1);
      assert Trail(row, col) == [next] + rest;
      TrailCells(next.0, next.1 + 1);
      forall x ensures x in [next] + rest <==> Pending(row, col, x.0, x.1) {
        if 0 <= x.0 < 9 && 0 <= x.1 < 9 {
          IdxInjective(x.0, x.1, next.0, next.1);
        }
      }
    }
  }

  /** Cells listed in strictly increasing row-major position. */
  ghost predicate Ascending(t: seq<(int, int)>) {
    forall k, l :: 0 <= k < l < |t| ==> Idx(t[k].0, t[k].1) < Idx(t[l].0, t[l].1)
  }

  lemma AscendingCons(x: (int, int), rest: seq<(int, int)>)
    requires Ascending(rest)
    requires forall y :: y in rest ==> Idx(x.0, x.1) < Idx(y.0, y.1)
    ensures Ascending([x] + rest)
  {
    var t := [x] + rest;
    forall k, l | 0 <= k < l < |t| ensures Idx(t[k].0, t[k].1) < Idx(t[l].0, t[l].1) {
      if k == 0 {
        assert t[l] in rest;
      } else {
        assert t[k] == rest[k - 1] && t[l] == rest[l - 1];
      }
    }
  }

  /** The skip logic visits cells in strictly increasing row-major
      position, hence each of them exactly once. */
  lemma {:induction false} TrailAscending(row: int, col: int)
    requires Entry(row, col)
    ensures Ascending(Trail(row, col))
    decreases 81 - Idx(row, col)
  {
    var next := Skip(row, col);
    if next.0 < 9 {
      var rest := Trail(next.0, next.1 + 1);
      assert Trail(row, col) == [next] + rest;
      TrailCells(next.0, next.1 + 1);
      TrailAscending(next.0, next.1 + 1);
      AscendingCons(next, rest);
    }
  }

  /** A cell the step starting at (row, col) may write: outside the diagonal
      boxes, at or after (row, col). */
  predicate Pending(row: int, col: int, r: int, c: int) {
    0 <= r < 9 && 0 <= c < 9 && Idx(row, col) <= Idx(r, c) && !InDiagonalBox(r, c)
  }

  ghost predicate PendingEmpty(s: seq<int>, row: int, col: int)
    requires |s| == 81
  {
    forall r, c :: Pending(row, col, r, c) ==> At(s, r, c) == 0
  }

  /** Writing the cell at (r, c) leaves empty the cells pending after it. */
  lemma PendingAfterWrite(s: seq<int>, row: int, col: int, r: int, c: int, v: int)
    requires |s| == 81 && 0 <= r < 9 && 0 <= c < 9 && Idx(row, col) <= Idx(r, c)
    requires PendingEmpty(s, row, col)
    ensures PendingEmpty(s[Idx(r, c) := v], r, c + 1)
  {
    var s', c' := s[Idx(r, c) := v], c + 1;
    forall x, y | Pending(r, c', x, y) ensures At(s', x, y) == 0 {
      assert Pending(row, col, x, y);
    }
  }

  /** s and t agree on every cell not pending from (row, col). */
  ghost predicate Untouched(s: seq<int>, t: seq<int>, row: int, col: int)
    requires |s| == 81 && |t| == 81
  {
    forall r, c :: 0 <= r < 9 && 0 <= c < 9 && !Pending(row, col, r, c) ==> At(s, r, c) == At(t, r, c)
  }

  /** Every cell pending from (row, col) holds a digit. */
  ghost predicate PendingFilled(s: seq<int>, row: int, col: int)
    requires |s| == 81
  {
    forall r, c :: Pending(row, col, r, c) ==> 1 <= At(s, r, c) <= 9
  }

  /** Writing a pending cell keeps the other cells untouched. */
  lemma UntouchedWrite(s: seq<int>, t: seq<int>, row: int, col: int, r: int, c: int, v: int)
    requires |s| == 81 && |t| == 81 && Pending(row, col, r, c)
    requires Untouched(s, t, row, col)
    ensures Untouched(s[Idx(r, c) := v], t, row, col)
  {
    var s' := s[Idx(r, c) := v];
    forall x, y | 0 <= x < 9 && 0 <= y < 9 && !Pending(row, col, x, y) ensures At(s', x, y) == At(t, x, y) {
      assert Idx(x, y) != Idx(r, c);
    }
  }

  /** After the cell chosen by Skip(row, col) is set to `num` and the cells
      after it are handled, what the step from (row, col) promises follows
      from what the step from the next position promises. */
  lemma Advance(s0: seq<int>, s2: seq<int>, row: int, col: int, num: int)
    requires |s0| == 81 && |s2| == 81 && Entry(row, col) && Skip(row, col).0 < 9
    requires Untouched(s2, s0[Idx(Skip(row, col).0, Skip(row, col).1) := num], Skip(row, col).0, Skip(row, col).1 + 1)
    ensures Untouched(s2, s0, row, col)
    ensures At(s2, Skip(row, col).0, Skip(row, col).1) == num
  {
    var r, c := Skip(row, col).0, Skip(row, col).1;
    var s1 := s0[Idx(r, c) := num];
    assert !Pending(r, c + 1, r, c);
    assert At(s2, r, c) == At(s1, r, c);
    forall x, y | 0 <= x < 9 && 0 <= y < 9 && !Pending(row, col, x, y) ensures At(s2, x, y) == At(s0, x, y) {
      assert !Pending(r, c + 1, x, y);
      assert Idx(x, y) != Idx(r, c);
    }
  }

  /** When the cells after the one Skip(row, col) chooses are filled and
      that cell holds a digit, every cell pending from (row, col) does. */
  lemma AdvanceFilled(s: seq<int>, row: int, col: int)
    requires |s| == 81 && Entry(row, col) && Skip(row, col).0 < 9
    requires 1 <= At(s, Skip(row, col).0, Skip(row, col).1) <= 9
    requires PendingFilled(s, Skip(row, col).0, Skip(row, col).1 + 1)
    ensures PendingFilled(s, row, col)
  {
    var r, c := Skip(row, col).0, Skip(row, col).1;
    forall x, y | Pending(row, col, x, y) ensures 1 <= At(s, x, y) <= 9 {
      if Idx(x, y) != Idx(r, c) {
        assert Pending(r, c + 1, x, y);
      } else {
        IdxInjective(x, y, r, c);
      }
    }
  }

  /** The backtracking step: fills the pending cells in order, each with the
      first digit of its drawn permutation that is safe and lets the rest be
      filled.  Draws are taken from `draws` starting at index `next`; `used`
      is the index of the next unused draw.  Only pending cells are written;
      on success all of them hold digits; validity is kept; on failure with
      the pending cells empty at entry, the grid is as it was. */
  method FillRemaining(g: array2<int>, row: int, col: int, draws: nat -> seq<int>, next: nat)
    returns (ok: bool, used: nat)
    requires Is9x9(g) && Entry(row, col)
    requires forall n :: IsPermutation(draws(n))
    modifies g
    ensures next <= used
    ensures Untouched(Cells(g), old(Cells(g)), row, col)
    ensures ok ==> PendingFilled(Cells(g), row, col)
    ensures Valid(old(Cells(g))) ==> Valid(Cells(g))
    ensures !ok && PendingEmpty(old(Cells(g)), row, col) ==> Cells(g) == old(Cells(g))
    decreases 81 - Idx(row, col)
  {
    var cell := Skip(row, col);
    var r, c := cell.0, cell.1;
    if r == 9 {
      return true, next;
    }
    var order := draws(next);
    used := next + 1;
    ghost var s := Cells(g);
    ghost var p := Idx(r, c);
    assert Pending(row, col, r, c);
    for k := 0 to 9
      invariant next < used
      invariant Untouched(Cells(g), s, row, col)
      invariant Valid(s) ==> Valid(Cells(g))
      invariant PendingEmpty(s, row, col) ==> Cells(g) == s
    {
      var num := order[k];
      if IsSafe(g, r, c, num) {
        ghost var before := Cells(g);
        Write(g, r, c, num);
        if Valid(s) {
          PlaceKeepsValid(before, r, c, num);
        }
        if PendingEmpty(s, row, col) {
          PendingAfterWrite(s, row, col, r, c, num);
        }
        var done;
        done, used := FillRemaining(g, r, c + 1, draws, used);
        Advance(before, Cells(g), row, col, num);
        if done {
          AdvanceFilled(Cells(g), row, col);
          return true, used;
        }
        ghost var after := Cells(g);
        Write(g, r, c, 0);
        UntouchedWrite(after, s, row, col, r, c, 0);
        if Valid(s) {
          ClearKeepsValid(after, r, c);
        }
        if PendingEmpty(s, row, col) {
          assert At(s, r, c) == 0;
          assert s[p := num][p := 0] == s;
        }
      }
    }
    return false, used;
  }
}
