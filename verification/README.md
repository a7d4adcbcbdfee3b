# xlsx_pic — a Dafny model of the spreadsheet image reader

`xlsx_pic` reads rows and cells of an `.xlsx` workbook and recovers the
images anchored in cells. Images do not occupy a cell's value slot, so a
blank cell is ambiguous: it is either truly empty or it holds a picture.
The reader decides this per cell. It has four parts:

- the **sheet accessors**: a name-to-index map built when the workbook is
  opened, the active sheet, and the `sheetname` / `sheetnum` properties,
  whose setters silently ignore values of the wrong type;
- the **cell image resolver** `get_cell_pic`: a stateless lookup that reopens
  the file and yields nothing, a file write, base64 text or raw PNG bytes;
- the **cell reader** `read_cell`: the image as base64 text, or else the
  cell's value;
- the **row reader** `read_row` with its **backfill** `__cell_pic_try`: an
  all-`None` row reads as `None`; otherwise every `None` of the row is
  replaced, left to right, by the resolver's result or `False`, optionally
  probing only the columns named in an allow-list.

The spreadsheet parser, the image-anchor index, `get_column_letter`, PNG
re-encoding and base64 are external libraries. They are not modelled. A
workbook is plain data (`Workbooks.Book`: sheets with maps from coordinate
to cell value and to image). The converters are the fields of
`Workbooks.Libs`, which every operation takes as a parameter. `str(row_num)`
is Python's own and is modelled (`Values.PyStr`).

Modules:

- `Wrappers` (wrappers.dfy): `Option`.
- `Values` (values.dfy): Python values (`Null` is `None`), truthiness,
  `str`, `list.index`, the `None` count and the empty-row test.
- `Workbooks` (workbooks.dfy): sheets, workbooks, library oracles,
  coordinates and rows.
- `CellImages` (cell_images.dfy): `get_cell_pic`.
- `XlsxPic` (xlsx_pic.dfy): the reader state, the accessors and `read_cell`.
- `RowReader` (row_reader.dfy): the backfill loop and `read_row`.
- `RowFacts` (row_facts.dfy): lemmas relating the backfill to the sheet and
  to `read_cell`.

The backfill methods return, besides the row, the list of 0-based columns
for which the resolver was consulted (`probed`). This records the calls to
`get_cell_pic` so that "the resolver is not consulted" can be stated.

## Model

| member | source | states |
|---|---|---|
| `Values.IndexOf` | xlsx_pic.py:148 | `list.index(x)`: the position holds `x` and no earlier position does |
| `Values.CountNullUpdate` | xlsx_pic.py:147-168 | replacing one `None` by a non-`None` value lowers the `None` count by exactly one; this is the loop's termination measure |
| `Values.SumFlagsZero` | xlsx_pic.py:125-126 | the sum of the 0/1 flags is never negative, and it is 0 exactly when every value of the row is `None` |
| `Values.BlankRow` | xlsx_pic.py:125-127 | the empty-row test is true exactly when every value is `None`, a zero-length row included |
| `Values.PyStr` | xlsx_pic.py:150 | `str(row_num)` is non-empty, starts with `-` exactly for a negative number, and is digits otherwise |
| `Values.DecimalValue` | xlsx_pic.py:150 | the decimal digits written for a natural number denote that number |
| `Values.StrRoundTrip` | xlsx_pic.py:150 | parsing the text `str(n)` gives `n` back, sign included |
| `Values.PyStrInjective` | xlsx_pic.py:150 | different row numbers have different texts |
| `Workbooks.PyIndex` | xlsx_pic.py:70 | a negative index counts from the end; the result is in range |
| `Workbooks.TitleLookup` | xlsx_pic.py:70 | in a workbook with unique titles, `wb[wb.sheetnames[i]]` is sheet `i` |
| `Workbooks.CoordInjective` | xlsx_pic.py:149-150 | with an injective converter to upper-case letters, two different cells (other column, other row, or both) have different coordinates |
| `CellImages.GetCellPic` | xlsx_pic.py:48-87 | no image: `None` and no write; image and a non-empty name: the image is saved under that name and `None` comes back; image and no name: the PNG bytes as base64 text or raw; never both a write and a value |
| `XlsxPic.IndexMap` | xlsx_pic.py:30 | `lstd` has exactly the sheet names as keys; each name maps to a position holding that name, and to its last one |
| `XlsxPic.IndexMapOfDistinct` | xlsx_pic.py:30 | for distinct names, `lstd[all_sheets[i]] == i` |
| `XlsxPic.Open` | xlsx_pic.py:24-30 | the opened reader is consistent, `all_sheets` lists the titles in order, `lstd[all_sheets[i]] == i`, and the active sheet is the file's active tab |
| `XlsxPic.SheetNum` | xlsx_pic.py:40-42 | `sheetnum` is the position of the active sheet; a negative active index counts from the end |
| `XlsxPic.SheetName` | xlsx_pic.py:32-34 | `sheetname` is the active sheet's title and `lstd` maps it to `sheetnum` |
| `XlsxPic.SetSheetName` | xlsx_pic.py:36-38 | a str makes that sheet active, so `sheetname == n` and `sheetnum == lstd[n]`; any other value leaves the reader unchanged; only the active sheet ever changes |
| `XlsxPic.SetSheetNum` | xlsx_pic.py:44-46 | an int (a bool included, True being 1) selects that sheet, negative counting from the end; any other value leaves the reader unchanged |
| `XlsxPic.ReadCell` | xlsx_pic.py:89-103 | an image anchored on the active sheet at `pos` gives the base64 text of its PNG bytes, obtained by reopening the file; otherwise the cell's value (`None` when empty) |
| `XlsxPic.SecondSheetByName` | xlsx_pic.py:36-46 | in a workbook with sheets "Sheet1" and "Sheet2", setting `sheetname` to "Sheet2" makes `sheetnum` 1 |
| `RowReader.Probe` | xlsx_pic.py:153-158 | a consulted position becomes the image's PNG payload when that payload is non-empty, and `False` when there is no image or the payload is empty; never `None` |
| `RowReader.Fill` | xlsx_pic.py:152-168 | a position outside a non-empty allow-list becomes `False`; the replacement is never `None` |
| `RowReader.ProbedStep` | xlsx_pic.py:152-168 | handling the next `None` keeps the record of consulted columns exact and increasing |
| `RowReader.BackfilledShape` | xlsx_pic.py:146-169 | the backfilled row has the input's length and no `None`; non-`None` entries are unchanged and each `None` is filled from its own column |
| `RowReader.ReplaceBlank` | xlsx_pic.py:149-168 | one pass builds `letter + str(row_num)` and consults the resolver exactly when the allow-list is empty or names the letter |
| `RowReader.ReplaceAllBlanks` | xlsx_pic.py:147-168 | the loop ends with the backfilled row, having consulted the resolver exactly for the `None` positions in allowed columns, left to right |
| `RowReader.CellPicTry` | xlsx_pic.py:137-171 | a list without `None` gives `None`; otherwise the same length, no `None` left, non-`None` entries unchanged, each `None` filled per its column, and the resolver consulted only for allowed columns |
| `RowReader.ReadRow` | xlsx_pic.py:105-135 | an all-`None` row (zero-length included) gives `None` whatever the flags; without backfill the raw values; with backfill and no blank cell `None`; with backfill and a blank the backfilled row |
| `RowFacts.FillFromActiveSheet` | xlsx_pic.py:148-168 | a `None` in an allowed column becomes the non-empty PNG payload of the image the active sheet anchors at that cell, and `False` in every other case |
| `RowFacts.FillAgreesWithReadCell` | xlsx_pic.py:97-103 | with base64 output, backfilling a blank cell gives what `read_cell` gives for its coordinate, or `False` where that is falsy |
| `RowFacts.AliceRow` | xlsx_pic.py:146-169 | row 3 = ["Alice", None, 30] with no image at B3 backfills to ["Alice", False, 30] |

Behaviour worth knowing, as the code does it:

- `read_row` with `read_cell_picture=True` on a row that has values and no
  blank cell returns `None`. `__cell_pic_try` returns `None` when the list
  holds no `None`, and `read_row` passes that through (`RowReader.ReadRow`).
- A row whose only content is images reads as `None`. The empty-row test
  looks at cell values only, and it runs before any image probe.
- A resolver result that is empty bytes or an empty string is falsy, so it
  becomes `False` (`RowReader.Probe`).
- The `sheetnum` setter accepts a bool, because a Python bool is an int:
  `True` selects sheet 1 (`XlsxPic.SetSheetNum`).
- A row read has one entry per column up to the sheet's `max_column`, not
  up to the last non-empty cell of that row (`Workbooks.RawRow`). In the
  model `max_column` is fixed; see `XlsxPic.ReadCell` under "## Left out".
- `get_cell_pic` selects its sheet by the title found at the given index
  (`wb[wb.sheetnames[sheetnum]]`), not by the index directly. The two agree
  because sheet titles are unique (`Workbooks.TitleLookup`).
- `new_name=""` is falsy, so no file is written and the bytes are returned
  (`CellImages.Named`).

## Left out

- Opening the file (`load_workbook`): the parsed contents are an input. Both
  the reader's own open and every reopen inside `get_cell_pic` see the same
  contents, because the file is taken not to change while the reader lives.
- Library failures are preconditions, not modelled errors: an unknown sheet
  name in the `sheetname` setter, an out-of-range index in `get_cell_pic`,
  and a row number below 1 in `read_row`.
- XlsxPic.SetSheetNum: the range precondition on the `sheetnum` setter is a
  simplification. The library's `active` setter stores any int, so the
  assignment itself succeeds; the program fails only at the next read of
  the active sheet (the `sheetnum` getter, `read_row`), and a later valid
  assignment recovers. The model does not represent that invalid state.
- XlsxPic.ReadCell: reads are modelled without the library's cell creation.
  In the program, `sheet[pos]` stores a cell it did not have, and
  `max_column` counts stored cells, so reading a cell beyond the last column
  widens every later `read_row` (and, with backfill, probes the new
  columns). In the model a sheet's `maxColumn` never changes.
- PNG re-encoding and base64 are the `png` and `b64` fields of `Libs`. The
  image loader's anchor lookup (`image_in` / `get`) is the fixed map
  `Sheet.images` of each sheet, read through `Workbooks.ImageAt`, so an
  image lookup depends on the sheet and the coordinate alone. That is an
  idealisation of the third-party image loader, whose code is not part of
  this model; its anchor table is a class-level dict shared by every
  instance, so in the program an anchor from a sheet loaded earlier can
  answer a later lookup. That sharing is left out. PIL's `image.save` is
  the value `CellImages.Saved(path, image)`, without a file system, and
  the file format that follows the file name's extension is not modelled.
- `get_column_letter` is an arbitrary function in `Libs`. That it is
  injective and yields upper-case letters is assumed only where stated
  (`Workbooks.CoordInjective`).
- Coordinate parsing: cell values and images are keyed by the canonical
  coordinate string. Lower-case or `$`-absolute coordinates given to
  `read_cell` are not normalised.
- Sheet visibility checks of the library's `active` setter.
- The unused `ws = wb.active; ws.title` lines, the parameter annotations and
  the `__main__` stub.
- Cell values of other Python types (float, datetime) are not separate
  constructors. The reader only asks whether a cell value is `None`, so they
  behave like any other non-`None` scalar.
- `read_row`'s two calls to `__cell_pic_try` (empty or non-empty
  `pic_column`) are one call in the model. Both pass the same list on.
- The mutation of the caller's list by `__cell_pic_try`. The model returns
  a new sequence, and `read_row` never uses its local list afterwards.
