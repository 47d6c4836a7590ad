/** Grid arithmetic of the sudoku board: coordinates, Python's floor division,
    the legal value set, and the row, column and block views, each given as the
    list of cells it visits in its iteration order. */
module Grid {

  datatype Option<+T> = None | Some(value: T)

  /** A board key `(row, col)`. */
  type Coord = (int, int)

  /** The board's storage: a sparse map; an absent key is a blank cell. */
  type Entries = map<Coord, int>

  // ---------------------------------------------------------------------------
  // Python integer arithmetic

  /** Python's `a // b`. */
  function FloorDiv(a: int, b: int): int
    requires b != 0
  {
    if b > 0 || a % b == 0 then a / b else a / b - 1
  }

  /** Python's `a % b`. */
  function FloorMod(a: int, b: int): int
    requires b != 0
  {
    a - b * FloorDiv(a, b)
  }

  /** `b * d >= b` for a positive `b` and `d >= 1`. */
  lemma {:induction false} MulAtLeast(b: int, d: int)
    requires b > 0 && d >= 1
    ensures b * d >= b
  {
    if d > 1 {
      MulAtLeast(b, d - 1);
      assert b * d == b * (d - 1) + b;
    }
  }

  /** Uniqueness of Euclidean division by a positive divisor. */
  lemma DivModUnique(a: int, b: int, q: int, r: int)
    requires b > 0 && 0 <= r < b && a == b * q + r
    ensures a / b == q && a % b == r
  {
    var q', r' := a / b, a % b;
    assert b * (q' - q) == r - r';
    if q' - q >= 1 {
      MulAtLeast(b, q' - q);
      assert false;
    }
    if q - q' >= 1 {
      MulAtLeast(b, q - q');
      assert false;
    }
  }

  /** Quotient bound: `0 <= x < b * n` puts `x / b` in `[0, n)`. */
  lemma DivBounds(x: int, b: int, n: int)
    requires b > 0 && 0 <= x < b * n
    ensures 0 <= x / b < n
  {
    var q, r := x / b, x % b;
    assert x == b * q + r && 0 <= r < b;
    if q < 0 {
      MulAtLeast(b, -q);
      assert false;
    }
    if q > n {
      MulAtLeast(b, q - n);
      assert false;
    }
    if q == n {
      assert false;
    }
  }

  /** Distinct numbers differ in quotient or remainder. */
  lemma DivModDistinct(i: int, j: int, b: int)
    requires b > 0 && i != j
    ensures i / b != j / b || i % b != j % b
  {
    assert i == b * (i / b) + i % b;
    assert j == b * (j / b) + j % b;
  }

  /** Python's `//` rounds toward negative infinity, and its `%` takes the
      divisor's sign, whatever the signs of the operands. */
  lemma FloorDivSpec(a: int, b: int)
    requires b != 0
    ensures a == b * FloorDiv(a, b) + FloorMod(a, b)
    ensures b > 0 ==> 0 <= FloorMod(a, b) < b
    ensures b < 0 ==> b < FloorMod(a, b) <= 0
  {
    var q, r := a / b, a % b;
    assert a == b * q + r;
    if b < 0 && r != 0 {
      assert b * (q - 1) == b * q - b;
    }
  }

  /** With a positive divisor, Python's floor division is Dafny's. */
  lemma FloorDivPositive(a: int, b: int)
    requires b > 0
    ensures FloorDiv(a, b) == a / b && FloorMod(a, b) == a % b
  {
  }

  // ---------------------------------------------------------------------------
  // Board dimensions

  /** `unit ** 2`: the number of rows, of columns and of cells in a block. */
  function Side(unit: int): nat
  {
    unit * unit
  }

  /** The integers `1..n`, as a set. */
  function UpTo(n: nat): set<int>
  {
    if n == 0 then {} else UpTo(n - 1) + {n}
  }

  lemma {:induction false} UpToSpec(n: nat)
    ensures |UpTo(n)| == n
    ensures forall v :: v in UpTo(n) <==> 1 <= v <= n
  {
    if n > 0 {
      UpToSpec(n - 1);
    }
  }

  /** `numbers = {x + 1 for x in range(unit ** 2)}`: the legal values `1..unit ** 2`. */
  function Numbers(unit: int): set<int>
  {
    UpTo(Side(unit))
  }

  /** The value set holds exactly `unit ** 2` numbers, `1` to `unit ** 2`. */
  lemma NumbersCard(unit: int)
    ensures |Numbers(unit)| == Side(unit)
    ensures forall v :: v in Numbers(unit) <==> 1 <= v <= Side(unit)
  {
    UpToSpec(Side(unit));
  }

  /** A coordinate inside the `side x side` grid. */
  predicate InRange(unit: int, p: Coord)
  {
    0 <= p.0 < Side(unit) && 0 <= p.1 < Side(unit)
  }

  /** `p` comes before `(row, col)` in row-major order. */
  predicate Before(p: Coord, row: int, col: int)
  {
    p.0 < row || (p.0 == row && p.1 < col)
  }

  // ---------------------------------------------------------------------------
  // Sequences

  /** Python's `range(lo, hi)`. */
  function Span(lo: int, hi: int): seq<int>
  {
    seq(if lo < hi then hi - lo else 0, i => lo + i)
  }

  /** `range(lo, hi)` holds exactly the integers from `lo` up to but not
      including `hi`, in ascending order. */
  lemma SpanMembers(lo: int, hi: int)
    ensures forall c :: c in Span(lo, hi) <==> lo <= c < hi
    ensures forall i, j :: 0 <= i < j < |Span(lo, hi)| ==> Span(lo, hi)[i] < Span(lo, hi)[j]
  {
    var s := Span(lo, hi);
    forall c | lo <= c < hi ensures c in s {
      assert s[c - lo] == c;
    }
  }

  /** Concatenation of the inner sequences, as nested `for` loops yield them. */
  function Flatten<T>(xss: seq<seq<T>>): seq<T>
  {
    if xss == [] then [] else xss[0] + Flatten(xss[1..])
  }

  lemma {:induction false} FlattenLength<T>(xss: seq<seq<T>>, w: nat)
    requires forall i :: 0 <= i < |xss| ==> |xss[i]| == w
    ensures |Flatten(xss)| == |xss| * w
  {
    if xss != [] {
      FlattenLength(xss[1..], w);
    }
  }

  /** Stepping over one row of width `w`: `k` lies one row further down than `k - w`. */
  lemma DivStep(k: int, w: int)
    requires w > 0 && k >= w
    ensures k / w == (k - w) / w + 1 && k % w == (k - w) % w
  {
    var q, r := (k - w) / w, (k - w) % w;
    assert w * (q + 1) == w * q + w;
    DivModUnique(k, w, q + 1, r);
  }

  /** Flattening equal-width rows: element `k` sits in row `k / w` at column `k % w`. */
  lemma {:induction false} FlattenAt<T>(xss: seq<seq<T>>, w: nat, k: int)
    requires w > 0
    requires forall i :: 0 <= i < |xss| ==> |xss[i]| == w
    requires 0 <= k < |xss| * w
    ensures |Flatten(xss)| == |xss| * w
    ensures 0 <= k / w < |xss| && Flatten(xss)[k] == xss[k / w][k % w]
  {
    FlattenLength(xss, w);
    if k < w {
      DivModUnique(k, w, 0, k);
    } else {
      var t := xss[1..];
      assert |xss| * w == |t| * w + w;
      FlattenAt(t, w, k - w);
      DivStep(k, w);
      assert Flatten(xss) == xss[0] + Flatten(t);
      assert Flatten(xss)[k] == Flatten(t)[k - w];
      assert t[(k - w) / w] == xss[k / w];
    }
  }

  /** No cell is visited twice. */
  predicate CellsDistinct(cells: seq<Coord>)
  {
    forall i, j :: 0 <= i < j < |cells| ==> cells[i] != cells[j]
  }

  // ---------------------------------------------------------------------------
  // Views

  /** Indexing the board with a tuple: the stored value, or `None` when absent. */
  function Cell(m: Entries, p: Coord): Option<int>
  {
    if p in m then Some(m[p]) else None
  }

  /** The values a view yields: one entry per visited cell, `None` for a blank. */
  function View(m: Entries, cells: seq<Coord>): (s: seq<Option<int>>)
    ensures |s| == |cells|
    ensures forall i :: 0 <= i < |cells| ==> s[i] == Cell(m, cells[i])
  {
    seq(|cells|, i requires 0 <= i < |cells| => Cell(m, cells[i]))
  }

  /** The `(start, stop)` bounds a `Row` or `Column` view iterates over. As
      written, a `start` given without a `stop` is ignored. */
  function ViewBoundsAsWritten(unit: int, start: int, stop: Option<int>): (int, int)
  {
    (if stop.None? then 0 else start, if stop.None? then Side(unit) else stop.value)
  }

  /** The bounds with `start` honoured; with the default arguments both agree. */
  function ViewBounds(unit: int, start: int, stop: Option<int>): (b: (int, int))
    ensures b.0 == start
    ensures stop.None? ==> b.1 == Side(unit)
    ensures stop.Some? ==> b == ViewBoundsAsWritten(unit, start, stop)
  {
    (start, if stop.None? then Side(unit) else stop.value)
  }

  /** An explicit `start` without a `stop` is dropped by the view as written. */
  lemma ViewStartIgnored()
    ensures ViewBoundsAsWritten(3, 3, None) == (0, 9)
    ensures ViewBounds(3, 3, None) == (3, 9)
  {
  }

  /** The corrected bounds visit exactly the columns `start..stop-1`. */
  lemma ViewBoundsSpan(unit: int, start: int, stop: Option<int>)
    ensures var b := ViewBounds(unit, start, stop);
            var s := Span(b.0, b.1);
            forall c :: c in s <==> start <= c < (if stop.None? then Side(unit) else stop.value)
  {
    var b := ViewBounds(unit, start, stop);
    var s := Span(b.0, b.1);
    forall c | start <= c < b.1 ensures c in s {
      assert s[c - start] == c;
    }
  }

  /** The cells of `Row(board, row)` with its default arguments: `(row, 0) .. (row, side-1)`. */
  function RowCells(unit: int, row: int): seq<Coord>
  {
    var b := ViewBoundsAsWritten(unit, 0, None);
    var cols := Span(b.0, b.1);
    seq(|cols|, i requires 0 <= i < |cols| => (row, cols[i]))
  }

  /** The cells of `Column(board, col)`: `(0, col) .. (side-1, col)`. */
  function ColumnCells(unit: int, col: int): seq<Coord>
  {
    var b := ViewBoundsAsWritten(unit, 0, None);
    var rows := Span(b.0, b.1);
    seq(|rows|, i requires 0 <= i < |rows| => (rows[i], col))
  }

  lemma RowCellsAt(unit: int, row: int)
    ensures |RowCells(unit, row)| == Side(unit)
    ensures forall c :: 0 <= c < Side(unit) ==> RowCells(unit, row)[c] == (row, c)
    ensures CellsDistinct(RowCells(unit, row))
  {
  }

  lemma ColumnCellsAt(unit: int, col: int)
    ensures |ColumnCells(unit, col)| == Side(unit)
    ensures forall r :: 0 <= r < Side(unit) ==> ColumnCells(unit, col)[r] == (r, col)
    ensures CellsDistinct(ColumnCells(unit, col))
  {
  }

  /** `block_number(row, col)`: which block holds the cell. */
  function BlockNumber(unit: int, row: int, col: int): int
    requires unit != 0
  {
    FloorDiv(row, unit) * unit + FloorDiv(col, unit)
  }

  /** The cells `block(b)` visits: rows `startrow .. startrow+unit-1` (outer loop)
      by columns `startcol .. startcol+unit-1` (inner loop). */
  function BlockCells(unit: int, b: int): seq<Coord>
    requires unit != 0
  {
    var startrow := FloorDiv(b, unit) * unit;
    var startcol := FloorMod(b, unit) * unit;
    var rows := Span(startrow, startrow + unit);
    var cols := Span(startcol, startcol + unit);
    Flatten(seq(|rows|, i requires 0 <= i < |rows| =>
      seq(|cols|, j requires 0 <= j < |cols| => (rows[i], cols[j]))))
  }

  /** With a negative unit both ranges are empty, so a block yields nothing. */
  lemma BlockCellsNegative(unit: int, b: int)
    requires unit < 0
    ensures BlockCells(unit, b) == []
  {
  }

  /** Closed form of a block: it has `unit ** 2` cells, and cell `k` is
      `(startrow + k / unit, startcol + k % unit)`. */
  lemma BlockCellAt(unit: int, b: int, k: int)
    requires unit > 0 && 0 <= k < Side(unit)
    ensures |BlockCells(unit, b)| == Side(unit)
    ensures BlockCells(unit, b)[k] == ((b / unit) * unit + k / unit, (b % unit) * unit + k % unit)
  {
    FloorDivPositive(b, unit);
    var startrow := FloorDiv(b, unit) * unit;
    var startcol := FloorMod(b, unit) * unit;
    var rows := Span(startrow, startrow + unit);
    var cols := Span(startcol, startcol + unit);
    var xss := seq(|rows|, i requires 0 <= i < |rows| =>
      seq(|cols|, j requires 0 <= j < |cols| => (rows[i], cols[j])));
    assert BlockCells(unit, b) == Flatten(xss);
    FlattenAt(xss, unit, k);
  }

  /** The cells of a block are pairwise distinct. */
  lemma BlockCellsDistinct(unit: int, b: int)
    requires unit != 0
    ensures CellsDistinct(BlockCells(unit, b))
  {
    if unit < 0 {
      BlockCellsNegative(unit, b);
    } else {
      var cells := BlockCells(unit, b);
      BlockCellAt(unit, b, 0);
      forall i, j | 0 <= i < j < |cells| ensures cells[i] != cells[j] {
        BlockCellAt(unit, b, i);
        BlockCellAt(unit, b, j);
        DivModDistinct(i, j, unit);
      }
    }
  }

  /** A number below `u * u` splits into two digits base `u`. */
  lemma Split(x: int, u: int)
    requires u > 0 && 0 <= x < u * u
    ensures 0 <= x / u < u && 0 <= x % u < u && x == (x / u) * u + x % u
  {
    DivBounds(x, u, u);
  }

  /** With a positive unit, `block_number` is `(row / unit) * unit + col / unit`. */
  lemma BlockNumberPositive(unit: int, row: int, col: int)
    requires unit > 0
    ensures BlockNumber(unit, row, col) == (row / unit) * unit + col / unit
  {
    FloorDivPositive(row, unit);
    FloorDivPositive(col, unit);
  }

  /** `q * u + r` with `0 <= q, r < u` lies in `[0, u * u)` and splits back into `q` and `r`. */
  lemma Combine(q: int, r: int, u: int)
    requires u > 0 && 0 <= q < u && 0 <= r < u
    ensures 0 <= q * u + r < u * u
    ensures (q * u + r) / u == q && (q * u + r) % u == r
  {
    assert u * u == u * q + u * (u - q);
    MulAtLeast(u, u - q);
    if q > 0 {
      MulAtLeast(u, q);
    }
    assert q * u == u * q;
    DivModUnique(q * u + r, u, q, r);
  }

  /** For an in-range cell, `block_number` lies in `[0, unit ** 2)`. */
  lemma BlockNumberInRange(unit: int, row: int, col: int)
    requires unit > 0 && InRange(unit, (row, col))
    ensures 0 <= BlockNumber(unit, row, col) < Side(unit)
  {
    BlockNumberPositive(unit, row, col);
    DivBounds(row, unit, unit);
    DivBounds(col, unit, unit);
    Combine(row / unit, col / unit, unit);
  }

  /** The index arithmetic behind `CellInOwnBlock`. */
  lemma OwnBlockArith(unit: int, row: int, col: int)
    requires unit > 0 && 0 <= row < unit * unit && 0 <= col < unit * unit
    ensures var b := (row / unit) * unit + col / unit;
            var k := (row % unit) * unit + col % unit;
            && 0 <= b < unit * unit && 0 <= k < unit * unit
            && (b / unit) * unit + k / unit == row
            && (b % unit) * unit + k % unit == col
  {
    Split(row, unit);
    Split(col, unit);
    Combine(row / unit, col / unit, unit);
    Combine(row % unit, col % unit, unit);
  }

  /** Each in-range cell is visited by the block `block_number` names, at
      position `(row % unit) * unit + col % unit`. */
  lemma CellInOwnBlock(unit: int, row: int, col: int)
    requires unit > 0 && InRange(unit, (row, col))
    ensures 0 <= (row % unit) * unit + col % unit < Side(unit)
    ensures |BlockCells(unit, BlockNumber(unit, row, col))| == Side(unit)
    ensures BlockCells(unit, BlockNumber(unit, row, col))[(row % unit) * unit + col % unit] == (row, col)
  {
    BlockNumberPositive(unit, row, col);
    OwnBlockArith(unit, row, col);
    BlockCellAt(unit, BlockNumber(unit, row, col), (row % unit) * unit + col % unit);
  }

  /** The index arithmetic behind `BlockCellInRange`. */
  lemma BlockCellArith(unit: int, b: int, k: int)
    requires unit > 0 && 0 <= b < unit * unit && 0 <= k < unit * unit
    ensures var row := (b / unit) * unit + k / unit;
            var col := (b % unit) * unit + k % unit;
            && 0 <= row < unit * unit && 0 <= col < unit * unit
            && (row / unit) * unit + col / unit == b
  {
    Split(b, unit);
    Split(k, unit);
    Combine(b / unit, k / unit, unit);
    Combine(b % unit, k % unit, unit);
  }

  /** Every cell of an in-range block is in range and belongs to that block. */
  lemma BlockCellInRange(unit: int, b: int, k: int)
    requires unit > 0 && 0 <= b < Side(unit) && 0 <= k < Side(unit)
    ensures |BlockCells(unit, b)| == Side(unit)
    ensures InRange(unit, BlockCells(unit, b)[k])
    ensures BlockNumber(unit, BlockCells(unit, b)[k].0, BlockCells(unit, b)[k].1) == b
  {
    BlockCellAt(unit, b, k);
    BlockCellArith(unit, b, k);
    var p := BlockCells(unit, b)[k];
    BlockNumberPositive(unit, p.0, p.1);
  }

  /** For a positive unit a cell is in block `b` exactly when `block_number` says so. */
  lemma InBlockIff(unit: int, b: int, p: Coord)
    requires unit > 0 && 0 <= b < Side(unit) && InRange(unit, p)
    ensures p in BlockCells(unit, b) <==> BlockNumber(unit, p.0, p.1) == b
  {
    var cells := BlockCells(unit, b);
    BlockCellAt(unit, b, 0);
    if p in cells {
      var k :| 0 <= k < |cells| && cells[k] == p;
      BlockCellInRange(unit, b, k);
    }
    if BlockNumber(unit, p.0, p.1) == b {
      CellInOwnBlock(unit, p.0, p.1);
      assert cells[(p.0 % unit) * unit + p.1 % unit] == p;
    }
  }

  // ---------------------------------------------------------------------------
  // Whole-board views

  function RowView(m: Entries, unit: int, row: int): seq<Option<int>>
  {
    View(m, RowCells(unit, row))
  }

  function ColumnView(m: Entries, unit: int, col: int): seq<Option<int>>
  {
    View(m, ColumnCells(unit, col))
  }

  function BlockView(m: Entries, unit: int, b: int): seq<Option<int>>
    requires unit != 0
  {
    View(m, BlockCells(unit, b))
  }

  /** `values()`: every row view in turn, row-major. */
  function Values(m: Entries, unit: int): seq<Option<int>>
  {
    Flatten(seq(Side(unit), r => RowView(m, unit, r)))
  }

  /** `values()` yields `unit ** 4` items; item `i` is the cell
      `(i // side, i % side)`, `None` when blank. */
  lemma ValuesAt(m: Entries, unit: int, i: int)
    requires 0 <= i < Side(unit) * Side(unit)
    ensures |Values(m, unit)| == Side(unit) * Side(unit)
    ensures Values(m, unit)[i] == Cell(m, (i / Side(unit), i % Side(unit)))
  {
    var n := Side(unit);
    var xss := seq(n, r => RowView(m, unit, r));
    forall r | 0 <= r < n ensures |xss[r]| == n {
      RowCellsAt(unit, r);
    }
    FlattenAt(xss, n, i);
    RowCellsAt(unit, i / n);
  }
}
