# Minesweeper grid, renderer and cursor — a Dafny model

This project models the core of a terminal Minesweeper written in Rust. It covers:

- the `Cell` and `Grid` records and the grid constructor `Grid::new` (`src/grid.rs`);
- the bordered text renderer `Grid::display`, as a pure function that returns the printed lines;
- the cursor state machine of the key loop in `src/main.rs`, with its `WIDTH = 30` and `HEIGHT = 20` bounds.

The files are:

- `options.dfy` (`Options`): the `Option` datatype used by the decoders.
- `decimal.dfy` (`Decimal`): Rust's `{}` text for the `u8` count, and a reader for it.
- `grid.dfy` (`GridModel`): `CellType`, `Cell`, `Grid`, `Cell::new` and `Grid::new`.
- `render.dfy` (`Render`): `Grid::display`, plus `ParseRowLine`, which reads a printed row back into what each cell shows.
- `cursor.dfy` (`Cursor`): `Step` (one key), `Run` (a key sequence up to the first quit key), and the construction call `Grid::new(HEIGHT, WIDTH)`.

The grid keeps the source's field names. `largeur` is the number of columns and `hauteur` the number of rows. The cell in column `x` of row `y` is `cells[y][x]`.

Lengths of printed lines count characters, and each box-drawing glyph (`┌ ─ ┐ │ └ ┘`) is one character.

Facts about the code that the model keeps as they are:

- `Cell::new` makes every cell revealed (`is_revealed: true`, src/grid.rs:23).
- `Cell` has no flag field (src/grid.rs:6-10).
- The renderer draws a revealed cell's count whatever its kind, so a revealed mine also shows a number (src/grid.rs:52-53).
- The renderer has no selection highlight and no flag or mine glyphs (src/grid.rs:49-58).

## Model

| member | source | states |
|---|---|---|
| Decimal.ToDecimal | src/grid.rs:53 | the text of a count is one or more ASCII digits with no leading zero, and is one character long exactly when the count is below ten |
| Decimal.ValueOfDecimal | src/grid.rs:53 | reading back the printed digits of a count gives the count (round trip) |
| Decimal.DecimalInjective | src/grid.rs:53 | different counts are printed differently |
| GridModel.NewCell | src/grid.rs:19-27 | `Cell::new` gives an `Empty` cell that is revealed and has zero adjacent mines |
| GridModel.NewRow | src/grid.rs:33-36 | the inner loop builds exactly `largeur` cells, each as `Cell::new` leaves it |
| GridModel.NewRows | src/grid.rs:31-38 | the outer loop builds exactly `hauteur` rows of `largeur` new cells each |
| GridModel.New | src/grid.rs:30-40 | the new grid is `hauteur` rows by `largeur` columns of new cells; it keeps `largeur` and `hauteur` as given, and `initialized` is false |
| Render.Border | src/grid.rs:43-47 | a border line is a corner, `2 * largeur + 1` horizontal bars and a corner, so it is `2 * largeur + 3` characters long |
| Render.RowLine | src/grid.rs:49-58 | a row line is `│` and a blank, then the row's segments in column order, then `│`, so it is three characters longer than its segments |
| Render.Display | src/grid.rs:42-65 | there are `hauteur + 2` lines; the first is the `┌`/`┐` border and the last the `└`/`┘` border, both `largeur` columns wide; line `y + 1` is the framed line of row `y` |
| Render.DisplayDecodes | src/grid.rs:48-59 | every row line of the display reads back as the views of that row's cells, in column order: hidden, or shown with its count |
| Render.Segment | src/grid.rs:52-56 | a cell's segment ends in a blank and is at least two characters; it starts with a digit exactly when the cell is revealed, and then the digits before the blank spell its adjacent-mine count in decimal |
| Render.Segments | src/grid.rs:50-57 | a row's segments take at least two characters per cell; `Render.ParseSegmentsOfSegments` and `Render.SegmentsOfParse` together fix their text exactly as the cells' views, in column order |
| Render.ParseSegmentsOfSegments | src/grid.rs:50-57 | the segments of a row (count and space, or two spaces) decode to the row's cell views, so rows whose cells show differently print differently |
| Render.SegmentsOfParse | src/grid.rs:50-57 | any text that decodes to a row's cell views is exactly that row's segments; with `Render.ParseSegmentsOfSegments`, two rows print alike exactly when their cells show alike, so rows that differ only in cell kind or in a hidden cell's count print alike |
| Render.RowLineRoundTrip | src/grid.rs:49-58 | a line reads back as a row's cell views if and only if it is the line printed for that row; a count is read only in the form `{}` prints it, with no leading zero, so the printed digits are fixed exactly |
| Decimal.CanonicalDecimal | src/grid.rs:53 | digits with no leading zero (a lone `0` aside) are exactly the `{}` text of their value |
| Render.SegmentsWidth | src/grid.rs:50-57 | when every count is below ten, each cell takes two characters |
| Render.DisplayWidth | src/grid.rs:42-65 | when every count is below ten, every printed line is `2 * largeur + 3` characters long |
| Render.NewSegments | src/grid.rs:52-53 | a row of cells as `Cell::new` leaves them prints as `"0 "` once per column |
| Render.NewGridDisplay | src/grid.rs:23-58 | on a freshly built grid every row line is `"│ "`, then `largeur` copies of `"0 "`, then `"│"` |
| Cursor.Step | src/main.rs:37-69 | `q`/Esc ends the loop and no other key does; Up, Down, Left and Right move one step clamped to `0..HEIGHT-1` and `0..WIDTH-1` and leave the other coordinate alone; Space, `f` and other keys keep the cursor; Space asks for a reveal and `f` for a flag toggle, at the cursor; an in-bounds cursor stays in bounds |
| Cursor.Run | src/main.rs:29-71 | reading keys from an in-bounds cursor keeps it in bounds, whatever the keys |
| Cursor.UpDownInverse | src/main.rs:39-48 | inside the board, Down then Up returns to the start away from the bottom edge, and Up then Down away from the top edge |
| Cursor.LeftRightInverse | src/main.rs:49-58 | inside the board, Right then Left returns to the start away from the right edge, and Left then Right away from the left edge |
| Cursor.RunAppend | src/main.rs:29-71 | reading two key sequences in turn is reading their concatenation, if the first has no quit key |
| Cursor.RunStopsAtQuit | src/main.rs:38 | no key after a quit key changes the cursor |
| Cursor.RunRights | src/main.rs:54-58 | `n` presses of Right move the cursor `n` columns while it stays on the board |
| Cursor.RunDowns | src/main.rs:44-48 | `n` presses of Down move the cursor `n` rows while it stays on the board |
| Cursor.Reachable | src/main.rs:25-58 | starting from `(0, 0)`, the cursor can reach a position exactly when it is in bounds (`x < 30`, `y < 20`) |
| Cursor.GameGrid | src/main.rs:27 | the grid the loop builds has `largeur` 20 and `hauteur` 30 |
| Cursor.SelectionLeavesGrid | src/main.rs:12-58 | some key sequence (25 presses of Right) brings the cursor in bounds to a column at or beyond the 20 columns of the built grid, and Space there asks to reveal that cell |
| Cursor.ColumnsOffGrid | src/main.rs:54-58 | every column from 20 to 29 is reachable by the cursor and lies outside the built grid |
| Cursor.RowsNeverSelected | src/main.rs:44-48 | the cursor never reaches rows 20 to 29, although the built grid has 30 rows |
| Cursor.IntendedGrid | src/grid.rs:30 | the grid built with arguments in declared order has `largeur` 30 and `hauteur` 20 |
| Cursor.SelectionInsideIntendedGrid | src/main.rs:25-58 | with that grid, the cursor can reach a position exactly when it names a cell of the grid |

## Left out

- Terminal setup and teardown: raw mode, the alternate screen, cursor show and hide, and the panic hook (src/main.rs:16-23, 73-74). These are terminal I/O.
- Blocking key reads, moving the terminal cursor, and the printing itself (src/main.rs:30, 34, 36). `Display` returns the lines instead of printing them.
- `set_selected`, `is_generated`, `generate`, `reveal`, `toggle_flag` and the `Display` trait impl behind `print!("{}", grid)`. They are called from src/main.rs:32-66 but are not defined in src/grid.rs, so their code is not part of this model. `Step` reports the calls it would make as the effects `Reveal` and `ToggleFlag`.
- For the same reason, mine placement, shuffling, adjacency counting, flood-fill reveal, flagging and randomness are not modelled.
- Cursor.Step: keys are abstracted to Up, Down, Left, Right, Space, `f`, Quit (`q` or Esc) and Other. Non-key events, which the loop ignores, are not modelled.
- Cursor.Run: it gives only the final cursor, not the sequence of effects.
- The `usize` widths of `largeur`, `hauteur`, `sel_x` and `sel_y` are not modelled. The loop's own guards keep the cursor within 0..29, so it never wraps.

## Findings

| source | as written | input that shows it | evidently intended | confidence | as-written member | corrected member |
|---|---|---|---|---|---|---|
| src/main.rs:27 | `Grid::new(HEIGHT, WIDTH)` passes the height as `largeur` and the width as `hauteur`. `Grid::new` is declared `new(largeur, hauteur)` (src/grid.rs:30), so the grid has 20 columns and 30 rows. The cursor ranges over 30 columns and 20 rows. | 25 presses of Right: cursor `(25, 0)`, then Space asks to reveal column 25 of a 20-column grid | `Grid::new(WIDTH, HEIGHT)`, so that the cursor ranges over exactly the cells of the grid | high; not executed | Cursor.SelectionLeavesGrid | Cursor.SelectionInsideIntendedGrid |
