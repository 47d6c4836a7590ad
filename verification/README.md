# Sudoku board engine — Dafny model

This project models the board engine of a small sudoku generator. A `Board` is a
dictionary from `(row, col)` to an integer, parameterised by `unit`: a side has
`unit ** 2` cells and the legal numbers are `{1, …, unit ** 2}`. The board offers:

- `Row` and `Column` views that yield `None` for blanks;
- `block(b)` and `block_number(row, col)`;
- a row-major `values()`;
- a type-checking `__setitem__`;
- `check()`, which builds a fail-mask of duplicated cells and raises `InvalidValueError` carrying it.

Two procedures use the board:

- `generate_board` fills empty boards greedily and restarts an attempt whenever a cell has no candidate left.
- `cull_board` deletes a requested number of random cells from a copy of a board.

The model has three modules:

- `Grid` (grid.dfy) holds the coordinate arithmetic. It models Python's floor `//` and `%` explicitly and defines `range`, the cells each view visits, the views themselves, `block_number` and `values()`, with the index lemmas about them.
- `Rules` (rules.dfy) holds the sudoku rules over board contents: repeats in a view, the fail-mask `check` computes, the candidate set of `generate_board`, consistency, solved boards and the pigeonhole argument.
- `Sudoku` (sudoku.dfy) holds the Python-facing layer:
  - a dynamic value type `Py` for the arguments Python code can pass;
  - the `Board` class, with a `unit` constant and an `entries` map that the methods update in place;
  - the `check` loops;
  - `generate_board` and `cull_board` as methods with loop invariants.

Any integer `unit` is accepted, because the source never checks it. For a negative
`unit`, `range(start, start + unit)` is empty, so every block view is empty. For
`unit == 0` the side is 0 and no loop runs. The random picks (`numpy.random.choice`)
are arbitrary choices (`:|`), so every property holds for whatever values are chosen.

The model follows the code as written:

- `__setitem__` rejects only a key that is not a 2-tuple or a value that is not an `int`. It checks neither coordinate ranges nor value ranges, so out-of-range entries can be stored.
- `check` raises `InvalidValueError` with the mask rather than returning it.
- `cull_board` truncates `cull_value * unit ** 4` toward zero rather than rounding. It accepts any float or int. It clamps a count above the number of filled cells, and a negative count deletes nothing.
- `check` marks a cell whenever its own value occurs twice in one of its views. When two cells share a group and a value, both are marked, not only the later one in iteration order.

## Model

| member | source | states |
|---|---|---|
| Grid.FloorDivSpec | sudoku/sudoku.py:99-100 | `FloorDiv`/`FloorMod` are Python's `//` and `%`: `a == b * (a // b) + a % b`, with the remainder in `[0, b)` for positive `b` and in `(b, 0]` for negative `b` |
| Grid.NumbersCard | sudoku/sudoku.py:63 | `numbers` has exactly `unit ** 2` elements, namely the `v` with `1 <= v <= unit ** 2` |
| Grid.SpanMembers | sudoku/sudoku.py:30 | `range(lo, hi)` holds exactly the integers `c` with `lo <= c < hi`, in strictly ascending order |
| Grid.ViewBounds | sudoku/sudoku.py:14-18 | corrected bounds: `start` is always honoured, and `stop` defaults to `unit ** 2`; when `stop` is given, they agree with the bounds as written |
| Grid.ViewBoundsSpan | sudoku/sudoku.py:29-31 | with the corrected bounds, iteration visits exactly the columns from `start` up to the end bound |
| Grid.ViewStartIgnored | sudoku/sudoku.py:17 | as written, `Row(board, r, start=3)` on a `unit=3` board iterates columns 0..8, not 3..8 |
| Grid.RowCellsAt | sudoku/sudoku.py:13-31 | `row(r)` visits `unit ** 2` distinct cells, the `c`-th being `(r, c)` |
| Grid.ColumnCellsAt | sudoku/sudoku.py:33-51 | `col(c)` visits `unit ** 2` distinct cells, the `r`-th being `(r, c)` |
| Grid.BlockCellAt | sudoku/sudoku.py:98-103 | for a positive unit, `block(b)` visits `unit ** 2` cells; the `k`-th is `(startrow + k // unit, startcol + k % unit)`, where `startrow = (b // unit) * unit` and `startcol = (b % unit) * unit` |
| Grid.BlockCellsNegative | sudoku/sudoku.py:101-102 | for a negative unit, `block(b)` visits no cell |
| Grid.BlockCellsDistinct | sudoku/sudoku.py:98-103 | `block(b)` never visits a cell twice |
| Grid.BlockNumberInRange | sudoku/sudoku.py:105-106 | for a positive unit, an in-range cell's `block_number` lies in `[0, unit ** 2)` |
| Grid.CellInOwnBlock | sudoku/sudoku.py:98-106 | for a positive unit, `block(block_number(r, c))` holds `(r, c)` at position `(r % unit) * unit + c % unit` |
| Grid.BlockCellInRange | sudoku/sudoku.py:98-106 | for a positive unit, every cell of `block(b)` for `b` in `[0, unit ** 2)` is in range, and its `block_number` is `b` |
| Grid.InBlockIff | sudoku/sudoku.py:98-106 | for a positive unit, an in-range cell is visited by `block(b)` exactly when `block_number` of the cell is `b` |
| Grid.ValuesAt | sudoku/sudoku.py:87-90 | `values()` yields `unit ** 4` items; item `i` is the cell `(i // unit ** 2, i % unit ** 2)`, or `None` when blank |
| Rules.MarkedIffConflict | sudoku/sudoku.py:108-133 | a filled in-range cell is marked exactly when another cell sharing its row, column or block (for a positive unit) holds the same value |
| Rules.ConflictMarksBoth | sudoku/sudoku.py:108-133 | two distinct filled cells sharing a group and a value are both in the fail-mask |
| Rules.RowDuplicatedIff | sudoku/sudoku.py:115-119 | the row scan finds the cell's value twice exactly when another cell of the row holds it |
| Rules.ColumnDuplicatedIff | sudoku/sudoku.py:122-126 | the column scan finds the cell's value twice exactly when another cell of the column holds it |
| Rules.BlockDuplicatedIff | sudoku/sudoku.py:129-133 | the block scan finds the cell's value twice exactly when another cell of the same block holds it (never, for a negative unit) |
| Rules.DistinctGroupsUnmarked | sudoku/sudoku.py:108-133 | on a board whose every view is free of repeats, no cell is marked |
| Rules.RowRepeatMarked | sudoku/sudoku.py:115-119 | a row view with a repeated value has a marked cell in that row |
| Rules.ColumnRepeatMarked | sudoku/sudoku.py:122-126 | a column view with a repeated value has a marked cell in that column |
| Rules.BlockRepeatMarked | sudoku/sudoku.py:129-133 | a block view with a repeated value has a marked cell whose `block_number` is that block |
| Rules.CheckPassesIff | sudoku/sudoku.py:108-136 | the fail-mask is empty, so `check` does not raise, exactly when no row, column or block view repeats a value |
| Rules.MarkedCells | sudoku/sudoku.py:110-112 | every cell `check` marks is a filled, in-range key |
| Rules.MaskBeforeEnd | sudoku/sudoku.py:109-133 | after the scan of all rows, the marks collected are the fail-mask |
| Rules.ViewUpdate | sudoku/sudoku.py:163-170 | writing into a repeat-free view a value it does not yet hold keeps it repeat-free |
| Rules.PlaceKeepsConsistent | sudoku/sudoku.py:163-170 | placing a value from `numbers - (row ∪ col ∪ block)` keeps every value legal and every view repeat-free |
| Rules.PresentCard | sudoku/sudoku.py:165-167 | a fully filled, repeat-free view holds as many distinct values as cells |
| Rules.Pigeonhole | sudoku/sudoku.py:63 | `unit ** 2` distinct values drawn from `numbers` are all of `numbers` |
| Rules.FilledConsistentIsSolved | sudoku/sudoku.py:161-172 | a board filled in exactly the in-range cells by consistent placements has every row, column and block holding each number once |
| Rules.SolvedPassesCheck | sudoku/sudoku.py:108-136 | `check` finds nothing to mark on a solved board |
| Sudoku.Board.constructor | sudoku/sudoku.py:53-63 | `Board(unit)` is empty, with `rows == cols == unit ** 2` and `numbers == {1..unit ** 2}` |
| Sudoku.Board.Copy | sudoku/sudoku.py:53-58 | `Board(other)` writes `other`'s entries one by one through `__setitem__` and ends with `other`'s unit and exactly `other`'s entries |
| Sudoku.Board.Get | sudoku/sudoku.py:65-68 | an integer (or bool) key gives its `Row` view; a pair key gives the stored value, or `None` when absent; any other key gives `None`; indexing never raises |
| Sudoku.Board.Set | sudoku/sudoku.py:70-85 | a key that is not a 2-tuple, or a value that is not an int, raises `ValueError` and leaves the entries unchanged; otherwise exactly that entry is inserted or overwritten, and reading it back gives the value |
| Sudoku.Board.Delete | sudoku/sudoku.py:195 | `del board[key]` removes exactly that key, or raises `KeyError` and changes nothing when the key is absent |
| Sudoku.ViewsAgree | sudoku/sudoku.py:20-21 | `board[r][c]` through the `Row` view and `board.col(c)[r]` both equal `board[(r, c)]` |
| Sudoku.ScanGroup | sudoku/sudoku.py:114-119 | the running-set scan of a view reports the cell's value exactly when it occurs at least twice in the view |
| Sudoku.Board.ScanCell | sudoku/sudoku.py:113-133 | the three scans for a filled cell mark it exactly when the cell is marked in the fail-mask |
| Sudoku.Board.Check | sudoku/sudoku.py:108-136 | `check` leaves the board unchanged; it returns normally when the fail-mask is empty, and otherwise raises `InvalidValueError` carrying exactly the fail-mask |
| Sudoku.FillCell | sudoku/sudoku.py:163-170 | either writes into `(row, col)` a value `v` drawn from `numbers` minus the values of the cell's row, column and block at that moment, changing no other entry and keeping the board consistent, or, when that candidate set is empty, leaves the board unchanged |
| Sudoku.FillAttempt | sudoku/sudoku.py:159-172 | a completed attempt yields a fresh board of the same unit that is solved; an abandoned attempt stopped at an in-range cell, with all earlier cells filled consistently and no candidate left |
| Sudoku.GenerateBoard | sudoku/sudoku.py:156-177 | with the defaults `unit = 3` and `max_attempts = 10000`, returns a solved board after fewer than `max_attempts` failures; otherwise returns `None` after exactly `max(max_attempts, 0)` attempts, each of which got stuck |
| Sudoku.Trunc | sudoku/sudoku.py:183 | `int()` of a float truncates toward zero: the result is within 1 of `x`, on the side of zero |
| Sudoku.RequestedCount | sudoku/sudoku.py:182-189 | a float requests its fraction of `unit ** 4` cells truncated toward zero, for positive and negative fractions alike; an int or bool requests itself, and any other type is refused |
| Sudoku.Removed | sudoku/sudoku.py:190-192 | the number deleted is the request clamped to the filled cells, and none for a negative request |
| Sudoku.CullBoard | sudoku/sudoku.py:180-196 | leaves its input unchanged; refuses a non-numeric `cull_value` with `ValueError`; otherwise returns a fresh board of the same unit whose entries are a subset of the input's, with the same values, numbering `len(input)` minus the clamped count |
| Sudoku.CullEverything | sudoku/sudoku.py:182-191 | a fraction of at least 1 deletes every filled cell of a board with at most `unit ** 4` entries |
| Sudoku.CullNothing | sudoku/sudoku.py:182-192 | a fraction of 0, or an integer count of at most 0, deletes nothing |

## Left out

- `Board.__repr__` (text rendering) and the exception message texts are not modelled.
- The terminal interface (curse.py), the web handler and its flat-list conversion (serve.py) and the process wrapper (cmd_wrapper.py) are not part of this model. They are screen, network and process I/O.
- Random choice is modelled as an arbitrary pick from the candidate set or key set. Nothing is claimed about uniformity or about the `numpy.int64` type. A `numpy.int64` is modelled as an ordinary int only as a value written through `__setitem__`, which accepts it. As a key or a cull count it is not an `int` to `isinstance`, and that case is not modelled.
- Tuple keys are modelled only when their components are integers; a tuple holding floats or other objects is not representable.
- Sudoku.Board.Set: a bool value is stored as the int it equals (`True` as 1). Python keeps the `bool` object, which compares and hashes like that int, so this matters only for rendering.
- Sudoku.RequestedCount: multiplies exactly over the reals. The source multiplies in binary floating point, so near an integer product the count can differ by one. NaN and infinite fractions, which make `int()` raise, are not modelled.
- Grid.BlockNumber, Grid.BlockCells, Grid.BlockView, Rules.Marked and Rules.Available: require `unit != 0`. Python raises `ZeroDivisionError` there, but inside the core it is never reached with `unit == 0`, because the side is then 0.
- The `Row`/`Column` `__setitem__` and `__delitem__` forwarders are not separate members. `board[row][col] = v` is modelled as `Set` with the pair key, which is what it reaches.
- `generate_board`'s `max_row` bookkeeping only feeds commented-out progress output and is not modelled.

## Findings

| source | as written | input that shows it | evidently intended | confidence | as-written member | corrected member |
|---|---|---|---|---|---|---|
| sudoku/sudoku.py:17,37 | `Row`/`Column` set `start` to 0 whenever `stop` is `None`, discarding an explicit `start` | `Row(board, 0, start=3)` on a `unit=3` board iterates columns 0..8 | iterate columns `start..unit**2-1` | medium, not executed | Grid.ViewBoundsAsWritten, Grid.ViewStartIgnored | Grid.ViewBounds, Grid.ViewBoundsSpan |
