/** The sudoku rules over board contents: when a view repeats a value, the
    fail-mask that `check` computes, the candidate set that `generate_board`
    draws from, and what a solved board is. */
module Rules {
  import opened Grid

  /** No filled value occurs twice in a view. */
  predicate DistinctFilled(s: seq<Option<int>>)
  {
    forall i, j :: 0 <= i < j < |s| && s[i].Some? ==> s[i] != s[j]
  }

  /** `x` occurs at least twice in `s`. */
  predicate Duplicated(s: seq<Option<int>>, x: Option<int>)
  {
    exists i, j :: 0 <= i < j < |s| && s[i] == x && s[j] == x
  }

  /** The filled values of a view: Python's `set(view)` less its `None`. */
  function Present(s: seq<Option<int>>): set<int>
  {
    set i | 0 <= i < |s| && s[i].Some? :: s[i].value
  }

  /** Every row, column and block view is free of repeated values. */
  predicate GroupsDistinct(m: Entries, unit: int)
  {
    && (forall r :: 0 <= r < Side(unit) ==> DistinctFilled(RowView(m, unit, r)))
    && (forall c :: 0 <= c < Side(unit) ==> DistinctFilled(ColumnView(m, unit, c)))
    && (forall b :: 0 <= b < Side(unit) ==> DistinctFilled(BlockView(m, unit, b)))
  }

  /** What a board under construction keeps: legal values, no repeats in any view. */
  predicate Consistent(m: Entries, unit: int)
  {
    GroupsDistinct(m, unit) && forall p :: p in m ==> m[p] in Numbers(unit)
  }

  // ---------------------------------------------------------------------------
  // check()

  /** The three views `check` scans for cell `p`: its row, its column and the
      block `block_number` names. */
  predicate Marked(m: Entries, unit: int, p: Coord)
    requires p in m && unit != 0
  {
    var x := Some(m[p]);
    || Duplicated(RowView(m, unit, p.0), x)
    || Duplicated(ColumnView(m, unit, p.1), x)
    || Duplicated(BlockView(m, unit, BlockNumber(unit, p.0, p.1)), x)
  }

  /** The fail-mask: `True` at each in-range filled cell whose value repeats in
      one of its views; no key for any other cell. */
  function FailMask(m: Entries, unit: int): map<Coord, bool>
  {
    map p | p in MarkedCells(m, unit) :: true
  }

  /** The cells `check` marks. */
  function MarkedCells(m: Entries, unit: int): (s: set<Coord>)
    ensures forall p :: p in s ==> p in m && InRange(unit, p)
  {
    set p | p in m && InRange(unit, p) && Marked(m, unit, p)
  }

  /** The marks made once every cell before `(row, col)` in row-major order
      has been scanned, when the cells to mark are `marks`. */
  function MaskBefore(marks: set<Coord>, row: int, col: int): map<Coord, bool>
  {
    map p | p in marks && Before(p, row, col) :: true
  }

  lemma MaskBeforeStart(marks: set<Coord>)
    requires forall p :: p in marks ==> 0 <= p.0 && 0 <= p.1
    ensures MaskBefore(marks, 0, 0) == map[]
  {
    assert forall p :: p !in MaskBefore(marks, 0, 0);
  }

  /** Scanning cell `(row, col)` adds it to the marks exactly when it is to be marked. */
  lemma MaskBeforeStep(marks: set<Coord>, row: int, col: int)
    ensures MaskBefore(marks, row, col + 1) ==
              if (row, col) in marks
              then MaskBefore(marks, row, col)[(row, col) := true]
              else MaskBefore(marks, row, col)
  {
  }

  lemma MaskBeforeRowEnd(marks: set<Coord>, row: int, width: int)
    requires forall p :: p in marks ==> 0 <= p.1 < width
    ensures MaskBefore(marks, row, width) == MaskBefore(marks, row + 1, 0)
  {
  }

  lemma MaskBeforeEnd(m: Entries, unit: int)
    ensures MaskBefore(MarkedCells(m, unit), Side(unit), 0) == FailMask(m, unit)
  {
  }

  /** Two cells share a row, a column or (for a positive unit) a block. */
  predicate SharesGroup(unit: int, p: Coord, q: Coord)
  {
    p.0 == q.0 || p.1 == q.1
    || (unit > 0 && BlockNumber(unit, p.0, p.1) == BlockNumber(unit, q.0, q.1))
  }

  /** A view over distinct cells repeats the value of the cell at `kp` exactly
      when some other visited cell holds the same value. */
  lemma ViewDuplicated(m: Entries, cells: seq<Coord>, kp: int)
    requires CellsDistinct(cells) && 0 <= kp < |cells| && cells[kp] in m
    ensures Duplicated(View(m, cells), Some(m[cells[kp]])) <==>
      exists k :: 0 <= k < |cells| && k != kp && Cell(m, cells[k]) == Some(m[cells[kp]])
  {
    var s, x := View(m, cells), Some(m[cells[kp]]);
    if Duplicated(s, x) {
      var i, j :| 0 <= i < j < |s| && s[i] == x && s[j] == x;
      var k := if i != kp then i else j;
      assert 0 <= k < |cells| && k != kp && Cell(m, cells[k]) == x;
    }
    if exists k :: 0 <= k < |cells| && k != kp && Cell(m, cells[k]) == x {
      var k :| 0 <= k < |cells| && k != kp && Cell(m, cells[k]) == x;
      var i, j := if k < kp then k else kp, if k < kp then kp else k;
      assert s[i] == x && s[j] == x;
    }
  }

  /** `q` is another filled in-range cell holding `p`'s value. */
  predicate Rival(m: Entries, unit: int, p: Coord, q: Coord)
    requires p in m
  {
    q in m && q != p && InRange(unit, q) && m[q] == m[p]
  }

  /** `p`'s row view repeats its value exactly when a rival shares the row. */
  lemma RowDuplicatedIff(m: Entries, unit: int, p: Coord)
    requires p in m && InRange(unit, p)
    ensures Duplicated(RowView(m, unit, p.0), Some(m[p])) <==>
      exists q :: Rival(m, unit, p, q) && q.0 == p.0
  {
    var cells := RowCells(unit, p.0);
    RowCellsAt(unit, p.0);
    ViewDuplicated(m, cells, p.1);
    if Duplicated(RowView(m, unit, p.0), Some(m[p])) {
      var k :| 0 <= k < |cells| && k != p.1 && Cell(m, cells[k]) == Some(m[p]);
      assert Rival(m, unit, p, (p.0, k));
    }
    if exists q :: Rival(m, unit, p, q) && q.0 == p.0 {
      var q :| Rival(m, unit, p, q) && q.0 == p.0;
      assert Cell(m, cells[q.1]) == Some(m[p]);
    }
  }

  /** `p`'s column view repeats its value exactly when a rival shares the column. */
  lemma ColumnDuplicatedIff(m: Entries, unit: int, p: Coord)
    requires p in m && InRange(unit, p)
    ensures Duplicated(ColumnView(m, unit, p.1), Some(m[p])) <==>
      exists q :: Rival(m, unit, p, q) && q.1 == p.1
  {
    var cells := ColumnCells(unit, p.1);
    ColumnCellsAt(unit, p.1);
    ViewDuplicated(m, cells, p.0);
    if Duplicated(ColumnView(m, unit, p.1), Some(m[p])) {
      var k :| 0 <= k < |cells| && k != p.0 && Cell(m, cells[k]) == Some(m[p]);
      assert Rival(m, unit, p, (k, p.1));
    }
    if exists q :: Rival(m, unit, p, q) && q.1 == p.1 {
      var q :| Rival(m, unit, p, q) && q.1 == p.1;
      assert Cell(m, cells[q.0]) == Some(m[p]);
    }
  }

  /** `p`'s block view repeats its value exactly when a rival shares the block;
      with a negative unit the block view is empty and shares nothing. */
  lemma BlockDuplicatedIff(m: Entries, unit: int, p: Coord)
    requires p in m && InRange(unit, p)
    ensures Duplicated(BlockView(m, unit, BlockNumber(unit, p.0, p.1)), Some(m[p])) <==>
      exists q :: Rival(m, unit, p, q) && unit > 0 && BlockNumber(unit, q.0, q.1) == BlockNumber(unit, p.0, p.1)
  {
    var b := BlockNumber(unit, p.0, p.1);
    var cells := BlockCells(unit, b);
    if unit < 0 {
      BlockCellsNegative(unit, b);
    } else {
      BlockCellsDistinct(unit, b);
      CellInOwnBlock(unit, p.0, p.1);
      BlockNumberInRange(unit, p.0, p.1);
      var kp := (p.0 % unit) * unit + p.1 % unit;
      ViewDuplicated(m, cells, kp);
      if Duplicated(BlockView(m, unit, b), Some(m[p])) {
        var k :| 0 <= k < |cells| && k != kp && Cell(m, cells[k]) == Some(m[p]);
        BlockCellInRange(unit, b, k);
        assert Rival(m, unit, p, cells[k]);
      }
      if exists q :: Rival(m, unit, p, q) && BlockNumber(unit, q.0, q.1) == b {
        var q :| Rival(m, unit, p, q) && BlockNumber(unit, q.0, q.1) == b;
        CellInOwnBlock(unit, q.0, q.1);
        var kq := (q.0 % unit) * unit + q.1 % unit;
        assert cells[kq] == q;
        assert Cell(m, cells[kq]) == Some(m[p]);
      }
    }
  }

  /** `check` marks a filled in-range cell exactly when another filled
      in-range cell in its row, column or block holds the same value. */
  lemma MarkedIffConflict(m: Entries, unit: int, p: Coord)
    requires p in m && InRange(unit, p)
    ensures Marked(m, unit, p) <==> exists q :: Rival(m, unit, p, q) && SharesGroup(unit, p, q)
  {
    RowDuplicatedIff(m, unit, p);
    ColumnDuplicatedIff(m, unit, p);
    BlockDuplicatedIff(m, unit, p);
    if exists q :: Rival(m, unit, p, q) && SharesGroup(unit, p, q) {
      var q :| Rival(m, unit, p, q) && SharesGroup(unit, p, q);
      if q.0 == p.0 {
        assert Duplicated(RowView(m, unit, p.0), Some(m[p]));
      } else if q.1 == p.1 {
        assert Duplicated(ColumnView(m, unit, p.1), Some(m[p]));
      } else {
        assert Duplicated(BlockView(m, unit, BlockNumber(unit, p.0, p.1)), Some(m[p]));
      }
    }
  }

  /** Overwriting a cell with a value already present in one of its groups
      marks both cells. */
  lemma ConflictMarksBoth(m: Entries, unit: int, p: Coord, q: Coord)
    requires p in m && q in m && p != q && InRange(unit, p) && InRange(unit, q)
    requires SharesGroup(unit, p, q) && m[p] == m[q]
    ensures p in FailMask(m, unit) && q in FailMask(m, unit)
  {
    MarkedIffConflict(m, unit, p);
    MarkedIffConflict(m, unit, q);
    assert Rival(m, unit, p, q) && Rival(m, unit, q, p);
    assert SharesGroup(unit, q, p);
  }

  /** A view with no repeats repeats no filled value. */
  lemma DistinctNotDuplicated(s: seq<Option<int>>, x: int)
    requires DistinctFilled(s)
    ensures !Duplicated(s, Some(x))
  {
  }

  /** A view that repeats a filled value yields a witness pair. */
  lemma NotDistinct(s: seq<Option<int>>) returns (i: int, j: int)
    requires !DistinctFilled(s)
    ensures 0 <= i < j < |s| && s[i].Some? && s[i] == s[j]
  {
    i, j :| 0 <= i < j < |s| && s[i].Some? && s[i] == s[j];
  }

  /** With no repeated value in any view, no cell is marked. */
  lemma DistinctGroupsUnmarked(m: Entries, unit: int, p: Coord)
    requires GroupsDistinct(m, unit) && p in m && InRange(unit, p)
    ensures !Marked(m, unit, p)
  {
    DistinctNotDuplicated(RowView(m, unit, p.0), m[p]);
    DistinctNotDuplicated(ColumnView(m, unit, p.1), m[p]);
    var b := BlockNumber(unit, p.0, p.1);
    if unit > 0 {
      BlockNumberInRange(unit, p.0, p.1);
      DistinctNotDuplicated(BlockView(m, unit, b), m[p]);
    } else {
      BlockCellsNegative(unit, b);
    }
  }

  /** A repeated value in a row view marks the cell it first appears in. */
  lemma RowRepeatMarked(m: Entries, unit: int, r: int) returns (p: Coord)
    requires 0 <= r < Side(unit) && !DistinctFilled(RowView(m, unit, r))
    ensures p.0 == r && p in FailMask(m, unit)
  {
    var i, j := NotDistinct(RowView(m, unit, r));
    RowCellsAt(unit, r);
    p := (r, i);
    assert Duplicated(RowView(m, unit, p.0), Some(m[p]));
  }

  /** A repeated value in a column view marks the cell it first appears in. */
  lemma ColumnRepeatMarked(m: Entries, unit: int, c: int) returns (p: Coord)
    requires 0 <= c < Side(unit) && !DistinctFilled(ColumnView(m, unit, c))
    ensures p.1 == c && p in FailMask(m, unit)
  {
    var i, j := NotDistinct(ColumnView(m, unit, c));
    ColumnCellsAt(unit, c);
    p := (i, c);
    assert Duplicated(ColumnView(m, unit, p.1), Some(m[p]));
  }

  /** A repeated value in a block view marks the cell it first appears in. */
  lemma BlockRepeatMarked(m: Entries, unit: int, b: int) returns (p: Coord)
    requires unit > 0 && 0 <= b < Side(unit) && !DistinctFilled(BlockView(m, unit, b))
    ensures BlockNumber(unit, p.0, p.1) == b && p in FailMask(m, unit)
  {
    var i, j := NotDistinct(BlockView(m, unit, b));
    BlockCellAt(unit, b, 0);
    BlockCellInRange(unit, b, i);
    p := BlockCells(unit, b)[i];
    assert Duplicated(BlockView(m, unit, BlockNumber(unit, p.0, p.1)), Some(m[p]));
  }

  /** `check` raises exactly when some row, column or block repeats a value. */
  lemma CheckPassesIff(m: Entries, unit: int)
    ensures FailMask(m, unit) == map[] <==> GroupsDistinct(m, unit)
  {
    if GroupsDistinct(m, unit) {
      forall p | p in m && InRange(unit, p) ensures !Marked(m, unit, p) {
        DistinctGroupsUnmarked(m, unit, p);
      }
      assert FailMask(m, unit).Keys == {};
    } else {
      var p: Coord;
      if unit < 0 {
        forall b | 0 <= b < Side(unit) ensures DistinctFilled(BlockView(m, unit, b)) {
          BlockCellsNegative(unit, b);
        }
      }
      if !(forall r :: 0 <= r < Side(unit) ==> DistinctFilled(RowView(m, unit, r))) {
        var r :| 0 <= r < Side(unit) && !DistinctFilled(RowView(m, unit, r));
        p := RowRepeatMarked(m, unit, r);
      } else if !(forall c :: 0 <= c < Side(unit) ==> DistinctFilled(ColumnView(m, unit, c))) {
        var c :| 0 <= c < Side(unit) && !DistinctFilled(ColumnView(m, unit, c));
        p := ColumnRepeatMarked(m, unit, c);
      } else {
        var b :| 0 <= b < Side(unit) && !DistinctFilled(BlockView(m, unit, b));
        p := BlockRepeatMarked(m, unit, b);
      }
      assert p in FailMask(m, unit);
    }
  }

  // ---------------------------------------------------------------------------
  // generate_board()

  /** `numbers - (set(row) | set(col) | set(block))`: the values cell `p` may take. */
  function Available(m: Entries, unit: int, p: Coord): set<int>
    requires unit != 0
  {
    Numbers(unit) - (Present(RowView(m, unit, p.0)) + Present(ColumnView(m, unit, p.1))
                     + Present(BlockView(m, unit, BlockNumber(unit, p.0, p.1))))
  }

  /** Writing a value the view does not yet hold keeps the view free of repeats. */
  lemma ViewUpdate(m: Entries, cells: seq<Coord>, p: Coord, v: int)
    requires CellsDistinct(cells) && DistinctFilled(View(m, cells))
    requires p in cells ==> v !in Present(View(m, cells))
    ensures DistinctFilled(View(m[p := v], cells))
  {
    var s, s' := View(m, cells), View(m[p := v], cells);
    forall i, j | 0 <= i < j < |s'| && s'[i].Some? ensures s'[i] != s'[j] {
      if cells[i] == p {
        assert s[j].Some? ==> s[j].value in Present(s);
      } else if cells[j] == p {
        assert s[i].value in Present(s);
      }
    }
  }

  /** Placing a candidate from `Available` keeps the board consistent: the
      value is legal and new to the cell's row, column and block. */
  lemma PlaceKeepsConsistent(m: Entries, unit: int, p: Coord, v: int)
    requires InRange(unit, p) && Consistent(m, unit)
    requires v in Available(m, unit, p)
    ensures Consistent(m[p := v], unit)
  {
    PlaceKeepsRows(m, m[p := v], unit, p, v);
    PlaceKeepsColumns(m, m[p := v], unit, p, v);
    PlaceKeepsBlocks(m, m[p := v], unit, p, v);
  }

  lemma PlaceKeepsRows(m: Entries, m': Entries, unit: int, p: Coord, v: int)
    requires InRange(unit, p) && Consistent(m, unit) && m' == m[p := v]
    requires v !in Present(RowView(m, unit, p.0))
    ensures forall r :: 0 <= r < Side(unit) ==> DistinctFilled(RowView(m', unit, r))
  {
    forall r | 0 <= r < Side(unit) ensures DistinctFilled(RowView(m', unit, r)) {
      RowCellsAt(unit, r);
      assert forall k :: 0 <= k < |RowCells(unit, r)| ==> RowCells(unit, r)[k].0 == r;
      assert DistinctFilled(RowView(m, unit, r));
      ViewUpdate(m, RowCells(unit, r), p, v);
    }
  }

  lemma PlaceKeepsColumns(m: Entries, m': Entries, unit: int, p: Coord, v: int)
    requires InRange(unit, p) && Consistent(m, unit) && m' == m[p := v]
    requires v !in Present(ColumnView(m, unit, p.1))
    ensures forall c :: 0 <= c < Side(unit) ==> DistinctFilled(ColumnView(m', unit, c))
  {
    forall c | 0 <= c < Side(unit) ensures DistinctFilled(ColumnView(m', unit, c)) {
      ColumnCellsAt(unit, c);
      assert forall k :: 0 <= k < |ColumnCells(unit, c)| ==> ColumnCells(unit, c)[k].1 == c;
      assert DistinctFilled(ColumnView(m, unit, c));
      ViewUpdate(m, ColumnCells(unit, c), p, v);
    }
  }

  lemma PlaceKeepsBlocks(m: Entries, m': Entries, unit: int, p: Coord, v: int)
    requires InRange(unit, p) && Consistent(m, unit) && m' == m[p := v]
    requires v !in Present(BlockView(m, unit, BlockNumber(unit, p.0, p.1)))
    ensures forall b :: 0 <= b < Side(unit) ==> DistinctFilled(BlockView(m', unit, b))
  {
    forall b | 0 <= b < Side(unit) ensures DistinctFilled(BlockView(m', unit, b)) {
      PlaceKeepsBlock(m, m', unit, p, v, b);
    }
  }

  lemma PlaceKeepsBlock(m: Entries, m': Entries, unit: int, p: Coord, v: int, b: int)
    requires InRange(unit, p) && m' == m[p := v] && 0 <= b < Side(unit)
    requires DistinctFilled(BlockView(m, unit, b))
    requires v !in Present(BlockView(m, unit, BlockNumber(unit, p.0, p.1)))
    ensures DistinctFilled(BlockView(m', unit, b))
  {
    BlockCellsDistinct(unit, b);
    if unit > 0 {
      InBlockIff(unit, b, p);
    } else {
      BlockCellsNegative(unit, b);
    }
    ViewUpdate(m, BlockCells(unit, b), p, v);
  }

  /** Generation failed at `p`: every cell before it is filled, consistently,
      and no value is left for `p`. */
  ghost predicate Stuck(unit: int, m: Entries, p: Coord)
  {
    && InRange(unit, p)
    && (forall q :: q in m <==> InRange(unit, q) && Before(q, p.0, p.1))
    && Consistent(m, unit)
    && Available(m, unit, p) == {}
  }

  // ---------------------------------------------------------------------------
  // Solved boards

  /** A view holds each of `1..unit ** 2` exactly once. */
  predicate HoldsEachOnce(s: seq<Option<int>>, unit: int)
  {
    && |s| == Side(unit)
    && (forall i :: 0 <= i < |s| ==> s[i].Some?)
    && DistinctFilled(s)
    && Present(s) == Numbers(unit)
  }

  /** Every cell filled, and every row, column and (for a positive unit) block
      holds each number exactly once. */
  ghost predicate Solved(m: Entries, unit: int)
  {
    && (forall p :: p in m <==> InRange(unit, p))
    && (forall r :: 0 <= r < Side(unit) ==> HoldsEachOnce(RowView(m, unit, r), unit))
    && (forall c :: 0 <= c < Side(unit) ==> HoldsEachOnce(ColumnView(m, unit, c), unit))
    && (unit > 0 ==> forall b :: 0 <= b < Side(unit) ==> HoldsEachOnce(BlockView(m, unit, b), unit))
  }

  /** Extending a view by a filled cell adds that cell's value to `Present`. */
  lemma PresentSnoc(t: seq<Option<int>>, x: int)
    ensures Present(t + [Some(x)]) == Present(t) + {x}
  {
    var s := t + [Some(x)];
    assert s[|t|] == Some(x);
    forall y | y in Present(s) ensures y in Present(t) + {x} {
      var i :| 0 <= i < |s| && s[i].Some? && s[i].value == y;
      if i < |t| {
        assert t[i] == s[i];
      }
    }
    forall y | y in Present(t) ensures y in Present(s) {
      var i :| 0 <= i < |t| && t[i].Some? && t[i].value == y;
      assert s[i] == t[i];
    }
  }

  /** A fully filled view without repeats holds as many values as cells. */
  lemma {:induction false} PresentCard(s: seq<Option<int>>)
    requires forall i :: 0 <= i < |s| ==> s[i].Some?
    requires DistinctFilled(s)
    ensures |Present(s)| == |s|
  {
    if s != [] {
      var n := |s| - 1;
      var t := s[..n];
      assert DistinctFilled(t);
      PresentCard(t);
      assert s == t + [Some(s[n].value)];
      PresentSnoc(t, s[n].value);
      assert s[n].value !in Present(t) by {
        forall i | 0 <= i < |t| && t[i].Some? ensures t[i].value != s[n].value {
          assert s[i] == t[i];
        }
      }
    }
  }

  /** Pigeonhole: `unit ** 2` distinct legal values fill the value set. */
  lemma Pigeonhole(s: seq<Option<int>>, unit: int)
    requires |s| == Side(unit)
    requires forall i :: 0 <= i < |s| ==> s[i].Some?
    requires DistinctFilled(s) && Present(s) <= Numbers(unit)
    ensures Present(s) == Numbers(unit)
  {
    PresentCard(s);
    NumbersCard(unit);
    var rest := Numbers(unit) - Present(s);
    assert Numbers(unit) == Present(s) + rest;
    assert |rest| == 0;
  }

  /** A fully filled view over in-range cells of a consistent board holds each
      number exactly once. */
  lemma FullViewHoldsEachOnce(m: Entries, unit: int, cells: seq<Coord>)
    requires forall p :: p in m ==> m[p] in Numbers(unit)
    requires forall p :: p in m <==> InRange(unit, p)
    requires |cells| == Side(unit) && forall k :: 0 <= k < |cells| ==> InRange(unit, cells[k])
    requires DistinctFilled(View(m, cells))
    ensures HoldsEachOnce(View(m, cells), unit)
  {
    var s := View(m, cells);
    assert forall i :: 0 <= i < |s| ==> s[i].Some? && s[i].value in Numbers(unit);
    Pigeonhole(s, unit);
  }

  /** A board filled in every in-range cell, and nowhere else, by consistent
      placements is solved. */
  lemma FilledConsistentIsSolved(m: Entries, unit: int)
    requires Consistent(m, unit) && (forall p :: p in m <==> InRange(unit, p))
    ensures Solved(m, unit)
  {
    forall r | 0 <= r < Side(unit) ensures HoldsEachOnce(RowView(m, unit, r), unit) {
      RowCellsAt(unit, r);
      assert DistinctFilled(RowView(m, unit, r));
      FullViewHoldsEachOnce(m, unit, RowCells(unit, r));
    }
    forall c | 0 <= c < Side(unit) ensures HoldsEachOnce(ColumnView(m, unit, c), unit) {
      ColumnCellsAt(unit, c);
      assert DistinctFilled(ColumnView(m, unit, c));
      FullViewHoldsEachOnce(m, unit, ColumnCells(unit, c));
    }
    if unit > 0 {
      forall b | 0 <= b < Side(unit) ensures HoldsEachOnce(BlockView(m, unit, b), unit) {
        FullBlockHoldsEachOnce(m, unit, b);
      }
    }
  }

  lemma FullBlockHoldsEachOnce(m: Entries, unit: int, b: int)
    requires forall p :: p in m ==> m[p] in Numbers(unit)
    requires forall p :: p in m <==> InRange(unit, p)
    requires unit > 0 && 0 <= b < Side(unit)
    requires DistinctFilled(BlockView(m, unit, b))
    ensures HoldsEachOnce(BlockView(m, unit, b), unit)
  {
    var cells := BlockCells(unit, b);
    BlockCellAt(unit, b, 0);
    forall k | 0 <= k < |cells| ensures InRange(unit, cells[k]) {
      BlockCellInRange(unit, b, k);
    }
    FullViewHoldsEachOnce(m, unit, cells);
  }

  /** `check` finds nothing to mark on a solved board. */
  lemma SolvedPassesCheck(m: Entries, unit: int)
    requires Solved(m, unit)
    ensures FailMask(m, unit) == map[]
  {
    if unit <= 0 {
      forall b | 0 <= b < Side(unit) ensures DistinctFilled(BlockView(m, unit, b)) {
        BlockCellsNegative(unit, b);
      }
    }
    CheckPassesIff(m, unit);
  }
}
