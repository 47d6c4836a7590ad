/** The sudoku board object and the two procedures built on it: `Board`
    (a dictionary from `(row, col)` to a value, with type-checked writes and a
    duplicate check), `generate_board` and `cull_board`. */
module Sudoku {
  import opened Grid
  import opened Rules

  /** The dynamically typed values callers hand to the board: Python `int`,
      `bool` (a subclass of `int`), `float`, `str`, `None` and tuples of
      integers. `PyInt` also stands for a `numpy.int64` only as a value written
      through `Set`, which accepts it; as a key or a cull count a `numpy.int64`
      is not an `int` and is not modelled. */
  datatype Py =
    | PyInt(i: int)
    | PyBool(b: bool)
    | PyFloat(f: real)
    | PyStr(s: string)
    | PyNone
    | PyTuple(items: seq<int>)

  /** The exceptions the core raises. */
  datatype Error = ValueError | KeyError | InvalidValueError(fails: map<Coord, bool>)

  /** How a statement ends: normally, or by raising. */
  datatype Status = Ok | Raised(error: Error)

  datatype Result<T> = Success(value: T) | Failure(error: Error)

  /** What indexing the board gives back: a `Row` view, or a cell's value. */
  datatype Item = RowOf(row: int) | Value(v: Option<int>)

  /** The integer an `isinstance(x, int)` value stands for; `True` is 1. */
  function AsInt(x: Py): Option<int>
  {
    match x
    case PyInt(i) => Some(i)
    case PyBool(b) => Some(if b then 1 else 0)
    case _ => None
  }

  /** A key `__setitem__` accepts: a tuple of length two. */
  predicate IsPair(key: Py)
  {
    key.PyTuple? && |key.items| == 2
  }

  function PairCoord(key: Py): Coord
    requires IsPair(key)
  {
    (key.items[0], key.items[1])
  }

  class Board {
    const unit: int
    const rows: int := Side(unit)
    const cols: int := rows
    /** `{1, ..., unit ** 2}`. */
    const numbers: set<int> := Numbers(unit)
    /** The filled cells; an absent key is a blank. */
    var entries: Entries

    /** `Board(unit)`: an empty board. */
    constructor(unit: int)
      ensures this.unit == unit && entries == map[]
      ensures rows == cols == Side(unit) && numbers == Numbers(unit)
    {
      this.unit := unit;
      entries := map[];
    }

    /** `Board(other)`: copies `other`'s unit, then writes its entries one by one. */
    constructor Copy(other: Board)
      ensures unit == other.unit && entries == other.entries
    {
      unit := other.unit;
      entries := map[];
      new;
      var pending := other.entries.Keys;
      while pending != {}
        invariant pending <= other.entries.Keys
        invariant entries == map p | p in other.entries && p !in pending :: other.entries[p]
        decreases |pending|
      {
        var p :| p in pending;
        var status := Set(PyTuple([p.0, p.1]), PyInt(other.entries[p]));
        pending := pending - {p};
      }
    }

    /** `board[item]`: an integer selects a `Row` view; any other key gives the
        stored value, or `None` when there is none, and never raises. */
    function Get(item: Py): (r: Item)
      reads this
      ensures AsInt(item).Some? ==> r == RowOf(AsInt(item).value)
      ensures AsInt(item).None? ==> r.Value?
      ensures r.Value? && r.v.Some? <==> IsPair(item) && PairCoord(item) in entries
      ensures r.Value? && r.v.Some? ==> r.v.value == entries[PairCoord(item)]
    {
      if AsInt(item).Some? then RowOf(AsInt(item).value)
      else if IsPair(item) then Value(Cell(entries, PairCoord(item)))
      else Value(None)
    }

    /** `board[key] = value`: only a pair key and an integer value are accepted,
        with no range check on either; anything else raises `ValueError` and
        leaves the board as it was. */
    method Set(key: Py, value: Py) returns (status: Status)
      modifies this
      ensures !IsPair(key) || AsInt(value).None? ==>
                status == Raised(ValueError) && entries == old(entries)
      ensures IsPair(key) && AsInt(value).Some? ==>
                && status == Ok
                && entries == old(entries)[PairCoord(key) := AsInt(value).value]
                && Get(key) == Value(AsInt(value))
    {
      if !IsPair(key) {
        return Raised(ValueError);
      }
      if AsInt(value).None? {
        return Raised(ValueError);
      }
      entries := entries[PairCoord(key) := AsInt(value).value];
      status := Ok;
    }

    /** `del board[key]`: `KeyError` unless the key is present. */
    method Delete(key: Coord) returns (status: Status)
      modifies this
      ensures key in old(entries) ==> status == Ok && entries == old(entries) - {key}
      ensures key !in old(entries) ==> status == Raised(KeyError) && entries == old(entries)
    {
      if key !in entries {
        return Raised(KeyError);
      }
      entries := entries - {key};
      status := Ok;
    }

    /** `check()`: scans every in-range filled cell's row, column and block,
        marks the cell when its value occurs there twice, and raises
        `InvalidValueError` carrying the marks when any cell was marked. The
        board is not changed. */
    method Check() returns (status: Status)
      ensures FailMask(entries, unit) == map[] ==> status == Ok
      ensures FailMask(entries, unit) != map[] ==>
                status == Raised(InvalidValueError(FailMask(entries, unit)))
    {
      ghost var marks := MarkedCells(entries, unit);
      var fails: map<Coord, bool> := map[];
      MaskBeforeStart(marks);
      var row := 0;
      while row < rows
        invariant 0 <= row <= rows
        invariant fails == MaskBefore(marks, row, 0)
      {
        var col := 0;
        while col < cols
          invariant 0 <= col <= cols
          invariant fails == MaskBefore(marks, row, col)
        {
          MaskBeforeStep(marks, row, col);
          if (row, col) in entries {
            var marked := ScanCell(row, col);
            if marked {
              fails := fails[(row, col) := true];
            }
          }
          col := col + 1;
        }
        MaskBeforeRowEnd(marks, row, cols);
        row := row + 1;
      }
      MaskBeforeEnd(entries, unit);
      if |fails| != 0 {
        status := Raised(InvalidValueError(fails));
      } else {
        status := Ok;
      }
    }

    /** The three scans `check` runs for one filled cell. */
    method ScanCell(row: int, col: int) returns (marked: bool)
      requires (row, col) in entries && InRange(unit, (row, col))
      ensures marked <==> Marked(entries, unit, (row, col))
    {
      var checkValue := entries[(row, col)];
      var inRow := ScanGroup(RowView(entries, unit, row), checkValue);
      var inColumn := ScanGroup(ColumnView(entries, unit, col), checkValue);
      var inBlock := ScanGroup(BlockView(entries, unit, BlockNumber(unit, row, col)), checkValue);
      marked := inRow || inColumn || inBlock;
    }
  }

  /** `board[row]` is a `Row` view, and reading column `col` through it, or
      through `board.col(col)`, gives what `board[(row, col)]` gives. */
  lemma ViewsAgree(board: Board, row: int, col: int)
    requires 0 <= row < board.rows && 0 <= col < board.cols
    ensures board.Get(PyInt(row)) == RowOf(row)
    ensures |RowView(board.entries, board.unit, row)| == board.cols
    ensures |ColumnView(board.entries, board.unit, col)| == board.rows
    ensures board.Get(PyTuple([row, col])) == Value(RowView(board.entries, board.unit, row)[col])
    ensures board.Get(PyTuple([row, col])) == Value(ColumnView(board.entries, board.unit, col)[row])
  {
    RowCellsAt(board.unit, row);
    ColumnCellsAt(board.unit, col);
  }

  /** One of `check`'s inner loops: walks a view with a running set of the
      values seen and reports whether `checkValue` turns up when already seen. */
  method ScanGroup(s: seq<Option<int>>, checkValue: int) returns (dup: bool)
    ensures dup <==> Duplicated(s, Some(checkValue))
  {
    var values: set<Option<int>> := {};
    dup := false;
    var i := 0;
    while i < |s|
      invariant 0 <= i <= |s|
      invariant forall x :: x in values <==> exists k :: 0 <= k < i && s[k] == x
      invariant dup <==> exists a, b :: 0 <= a < b < i && s[a] == Some(checkValue) && s[b] == Some(checkValue)
    {
      var value := s[i];
      if value in values && value == Some(checkValue) {
        var a :| 0 <= a < i && s[a] == value;
        assert s[a] == Some(checkValue) && s[i] == Some(checkValue);
        dup := true;
      } else {
        values := values + {value};
      }
      i := i + 1;
    }
  }

  // ---------------------------------------------------------------------------
  // generate_board()

  /** One attempt of `generate_board`: fills a fresh board in row-major order,
      each cell with an arbitrary value from its candidate set (the random
      pick). When a candidate set is empty the attempt is abandoned, which the
      source signals by the `ValueError` of choosing from an empty list; the
      ghost `partial` and `at` then record the board and the cell it stopped
      at. */
  method FillAttempt(unit: int) returns (r: Option<Board>, ghost partial: Entries, ghost at: Coord)
    ensures r.Some? ==> fresh(r.value) && r.value.unit == unit && Solved(r.value.entries, unit)
    ensures r.None? ==> Stuck(unit, partial, at)
  {
    var board := new Board(unit);
    partial, at := map[], (0, 0);
    var row := 0;
    while row < board.rows
      invariant 0 <= row <= board.rows && board.unit == unit
      invariant forall q :: q in board.entries <==> InRange(unit, q) && Before(q, row, 0)
      invariant Consistent(board.entries, unit)
    {
      var col := 0;
      while col < board.cols
        invariant 0 <= col <= board.cols
        invariant forall q :: q in board.entries <==> InRange(unit, q) && Before(q, row, col)
        invariant Consistent(board.entries, unit)
      {
        var placed, v := FillCell(board, row, col);
        if !placed {
          partial, at := board.entries, (row, col);
          return None, partial, at;
        }
        col := col + 1;
      }
      row := row + 1;
    }
    FilledConsistentIsSolved(board.entries, unit);
    r := Some(board);
  }

  /** `board[row][col] = numpy.random.choice(available)`: writes an arbitrary
      candidate `v` into the cell, or reports that there is none. */
  method FillCell(board: Board, row: int, col: int) returns (placed: bool, v: int)
    requires InRange(board.unit, (row, col)) && Consistent(board.entries, board.unit)
    modifies board
    ensures placed ==> v in Available(old(board.entries), board.unit, (row, col))
    ensures placed ==> board.entries == old(board.entries)[(row, col) := v]
    ensures placed ==> Consistent(board.entries, board.unit)
    ensures !placed ==> board.entries == old(board.entries)
    ensures !placed ==> Available(board.entries, board.unit, (row, col)) == {}
  {
    var available := Available(board.entries, board.unit, (row, col));
    if w :| w in available {
      v := w;
      ghost var m := board.entries;
      PlaceKeepsConsistent(m, board.unit, (row, col), v);
      var status := board.Set(PyTuple([row, col]), PyInt(v));
      placed := true;
    } else {
      assert forall x :: x in available <==> x in {};
      placed, v := false, 0;
    }
  }

  /** `generate_board(unit=3, max_attempts=10000)`: up to `max_attempts` fill attempts,
      each from an empty board. Returns the first complete board, or `None`
      once every attempt has got stuck; `failures` records, per failed attempt,
      the partial board and the cell with no candidate left. */
  method GenerateBoard(unit: int := 3, maxAttempts: int := 10000) returns (r: Option<Board>, ghost failures: seq<(Entries, Coord)>)
    ensures r.Some? ==> fresh(r.value) && r.value.unit == unit && Solved(r.value.entries, unit)
    ensures r.Some? ==> |failures| < maxAttempts
    ensures r.None? ==> |failures| == (if maxAttempts < 0 then 0 else maxAttempts)
    ensures forall k :: 0 <= k < |failures| ==> Stuck(unit, failures[k].0, failures[k].1)
  {
    failures := [];
    var i := 1;
    while i < 1 + maxAttempts
      invariant 1 <= i && (maxAttempts >= 0 ==> i <= 1 + maxAttempts) && (maxAttempts < 0 ==> i == 1)
      invariant |failures| == i - 1
      invariant forall k :: 0 <= k < |failures| ==> Stuck(unit, failures[k].0, failures[k].1)
    {
      var attempt, partial, at := FillAttempt(unit);
      if attempt.Some? {
        return attempt, failures;
      }
      failures := failures + [(partial, at)];
      i := i + 1;
    }
    r := None;
  }

  // ---------------------------------------------------------------------------
  // cull_board()

  /** Python's `int()` on a float: truncation toward zero. */
  function Trunc(x: real): (n: int)
    ensures 0.0 <= x ==> n as real <= x < n as real + 1.0
    ensures x < 0.0 ==> n as real - 1.0 < x <= n as real
  {
    if x >= 0.0 then x.Floor else -((-x).Floor)
  }

  /** `unit ** 4`, the number of cells of the board. */
  function Cells(unit: int): nat
  {
    Side(unit) * Side(unit)
  }

  /** The deletion count `cull_board` asks for: a float is a fraction of
      `unit ** 4` cells, truncated; an integer (or a bool) is the count
      itself; anything else is refused with `None`. */
  function RequestedCount(cull: Py, unit: int): (n: Option<int>)
    ensures n.None? <==> !(cull.PyFloat? || cull.PyInt? || cull.PyBool?)
    ensures cull.PyFloat? && 0.0 <= cull.f ==>
              0 <= n.value && n.value as real <= cull.f * Cells(unit) as real < n.value as real + 1.0
    ensures cull.PyFloat? && cull.f < 0.0 ==>
              n.value <= 0 && n.value as real - 1.0 < cull.f * Cells(unit) as real <= n.value as real
    ensures !cull.PyFloat? ==> n == AsInt(cull)
  {
    if cull.PyFloat? then Some(Trunc(cull.f * Cells(unit) as real)) else AsInt(cull)
  }

  /** How many cells a request of `n` removes from a board holding `filled`:
      the count is clamped to `filled`, and `range(n)` is empty for `n <= 0`. */
  function Removed(n: int, filled: nat): (k: nat)
    ensures k <= filled && k <= (if n < 0 then 0 else n)
    ensures k == filled || k == (if n < 0 then 0 else n)
  {
    if n > filled then filled else if n < 0 then 0 else n
  }

  /** `cull_board(board, cull_value)`: copies the board, then deletes the
      requested number of arbitrarily chosen filled cells from the copy (the
      random pick); the input board is left as it was. */
  method CullBoard(board: Board, cull: Py) returns (r: Result<Board>)
    ensures board.entries == old(board.entries)
    ensures r.Failure? <==> RequestedCount(cull, board.unit).None?
    ensures r.Failure? ==> r.error == ValueError
    ensures r.Success? ==>
              && fresh(r.value)
              && r.value.unit == board.unit
              && r.value.entries.Keys <= board.entries.Keys
              && (forall p :: p in r.value.entries ==> r.value.entries[p] == board.entries[p])
              && |r.value.entries| == |board.entries| - Removed(RequestedCount(cull, board.unit).value, |board.entries|)
  {
    var copy := new Board.Copy(board);
    var requested := RequestedCount(cull, copy.unit);
    if requested.None? {
      return Failure(ValueError);
    }
    var n := requested.value;
    if n > |copy.entries| {
      n := |copy.entries|;
    }
    var i := 0;
    while i < n
      invariant 0 <= i && (0 <= n ==> i <= n) && (n < 0 ==> i == 0)
      invariant copy.unit == board.unit
      invariant copy.entries.Keys <= board.entries.Keys
      invariant forall p :: p in copy.entries ==> copy.entries[p] == board.entries[p]
      invariant |copy.entries| == |board.entries| - i
    {
      assert copy.entries.Keys != {} by {
        assert |copy.entries.Keys| == |copy.entries| > 0;
      }
      var key :| key in copy.entries.Keys;
      ghost var before := copy.entries;
      var status := copy.Delete(key);
      assert copy.entries.Keys == before.Keys - {key};
      i := i + 1;
    }
    r := Success(copy);
  }

  /** A fraction of at least one empties any board whose filled cells are
      within the `unit ** 4` grid. */
  lemma CullEverything(f: real, unit: int, filled: nat)
    requires 1.0 <= f && filled <= Cells(unit)
    ensures Removed(RequestedCount(PyFloat(f), unit).value, filled) == filled
  {
    var c := Cells(unit);
    ScaleAtLeast(f, c as real);
    TruncAtLeast(f * c as real, c);
  }

  lemma ScaleAtLeast(f: real, c: real)
    requires 1.0 <= f && 0.0 <= c
    ensures c <= f * c
  {
    assert f * c == c + (f - 1.0) * c;
  }

  /** Truncating a value no smaller than an integer keeps it no smaller. */
  lemma TruncAtLeast(x: real, c: int)
    requires c as real <= x
    ensures c <= Trunc(x)
  {
  }

  /** A fraction of zero, or any count of at most zero, removes nothing. */
  lemma CullNothing(cull: Py, unit: int, filled: nat)
    requires cull == PyFloat(0.0) || (AsInt(cull).Some? && AsInt(cull).value <= 0)
    ensures Removed(RequestedCount(cull, unit).value, filled) == 0
  {
  }
}
