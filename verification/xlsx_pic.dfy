/** The stateful reader over one opened workbook: the sheet name/index map,
    the active sheet and its two property-style accessors, and the cell reader. */
module XlsxPic {
  import opened Values
  import opened Wrappers
  import opened Workbooks
  import opened CellImages

  /** The reader's state: the file name, the parsed workbook with the index
      of its active sheet (a Python index, so possibly negative), the sheet
      names (`all_sheets`) and the name-to-index map (`lstd`). */
  datatype Reader = Reader(filename: string, book: Workbook, active: int,
                           allSheets: seq<string>, lstd: map<string, int>)

  /** `lstd`: each sheet name mapped to its position; when a name repeats, its last position wins. */
  function IndexMap(names: seq<string>): (m: map<string, int>)
    ensures m.Keys == set n | n in names
    ensures forall n :: n in m ==> 0 <= m[n] < |names| && names[m[n]] == n
    ensures forall n, j :: n in m && m[n] < j < |names| ==> names[j] != n
  {
    if |names| == 0 then map[]
    else
      var last := |names| - 1;
      var m := IndexMap(names[..last]);
      assert forall n :: n in names <==> n in names[..last] || n == names[last];
      m[names[last] := last]
  }

  /** For distinct names the map sends each name back to its own position. */
  lemma IndexMapOfDistinct(names: seq<string>)
    requires Distinct(names)
    ensures forall i :: 0 <= i < |names| ==> names[i] in IndexMap(names) && IndexMap(names)[names[i]] == i
  {
  }

  predicate Valid(x: Reader) {
    && x.allSheets == Titles(x.book)
    && x.lstd == IndexMap(x.allSheets)
    && -|x.book.sheets| <= x.active < |x.book.sheets|
  }

  /** `xlsx_pic(filename)`: `book` is what `load_workbook(filename)` parses. */
  function Open(filename: string, book: Workbook): (x: Reader)
    ensures Valid(x)
    ensures x.filename == filename && x.book == book
    ensures forall i :: 0 <= i < |x.allSheets| ==> x.allSheets[i] in x.lstd && x.lstd[x.allSheets[i]] == i
    ensures forall i :: 0 <= i < |x.allSheets| ==> x.allSheets[i] == book.sheets[i].title
    ensures x.active == book.activeTab && SheetNum(x) == book.activeTab
  {
    var names := Titles(book);
    IndexMapOfDistinct(names);
    Reader(filename, book, book.activeTab, names, IndexMap(names))
  }

  /** `openpyxl_wb.active`. */
  function ActiveSheet(x: Reader): Sheet
    requires Valid(x)
  {
    x.book.sheets[PyIndex(x.active, |x.book.sheets|)]
  }

  /** The `sheetnum` getter: `lstd[active.title]`. */
  function SheetNum(x: Reader): (k: int)
    requires Valid(x)
    ensures 0 <= k < |x.allSheets|
    ensures x.book.sheets[k] == ActiveSheet(x)
    ensures x.active >= 0 ==> k == x.active
    ensures x.active < 0 ==> k == x.active + |x.allSheets|
  {
    var i := PyIndex(x.active, |x.book.sheets|);
    IndexMapOfDistinct(x.allSheets);
    assert x.allSheets[i] == ActiveSheet(x).title;
    x.lstd[ActiveSheet(x).title]
  }

  /** The `sheetname` getter: `all_sheets[sheetnum]`. */
  function SheetName(x: Reader): (name: string)
    requires Valid(x)
    ensures name == ActiveSheet(x).title
    ensures name in x.lstd && x.lstd[name] == SheetNum(x)
  {
    x.allSheets[SheetNum(x)]
  }

  /** The `sheetname` setter: a str selects the sheet of that title
      (`wb.active = wb[value]`); any other value is ignored. An unknown title
      is a library error and excluded. */
  function SetSheetName(x: Reader, value: Value): (y: Reader)
    requires Valid(x)
    requires value.Str? ==> value.s in x.allSheets
    ensures Valid(y)
    ensures y == x.(active := y.active)
    ensures !value.Str? ==> y == x
    ensures value.Str? ==> SheetName(y) == value.s && SheetNum(y) == x.lstd[value.s]
  {
    if value.Str? then x.(active := IndexOf(Titles(x.book), value.s)) else x
  }

  /** The `sheetnum` setter: an int (a bool included) becomes the active
      index (`wb.active = value`); any other value is ignored. An index out
      of range is a library error and excluded. */
  function SetSheetNum(x: Reader, value: Value): (y: Reader)
    requires Valid(x)
    requires IsPyInt(value) ==> -|x.allSheets| <= AsInt(value) < |x.allSheets|
    ensures Valid(y)
    ensures y == x.(active := y.active)
    ensures !IsPyInt(value) ==> y == x
    ensures IsPyInt(value) && AsInt(value) >= 0 ==> SheetNum(y) == AsInt(value)
    ensures IsPyInt(value) && AsInt(value) < 0 ==> SheetNum(y) == AsInt(value) + |x.allSheets|
    ensures IsPyInt(value) ==> SheetName(y) == x.allSheets[SheetNum(y)]
  {
    if IsPyInt(value) then x.(active := AsInt(value)) else x
  }

  /** `read_cell(pos)`: if the active sheet anchors an image at `pos`, the
      base64 text of its PNG bytes, fetched through `get_cell_pic` on a fresh
      open of the same file; otherwise the cell's own value. */
  function ReadCell(libs: Libs, x: Reader, pos: string): (r: Value)
    requires Valid(x)
    ensures ImageAt(ActiveSheet(x), pos).Some? ==> r == Str(libs.b64(libs.png(ActiveSheet(x).images[pos])))
    ensures ImageAt(ActiveSheet(x), pos).None? ==> r == CellValue(ActiveSheet(x), pos)
  {
    TitleLookup(x.book, SheetNum(x));
    var sheet := SheetByTitle(x.book, x.allSheets[SheetNum(x)]);
    if pos in sheet.images then
      GetCellPic(libs, x.book, SheetNum(x), pos, None, true).ret
    else
      CellValue(sheet, pos)
  }

  /** Opening a two-sheet workbook and selecting the second sheet by name
      makes `sheetnum` 1. */
  lemma SecondSheetByName(s1: Sheet, s2: Sheet)
    requires s1.title == "Sheet1" && s2.title == "Sheet2"
    ensures WellFormed(Book([s1, s2], 0))
    ensures SheetNum(SetSheetName(Open("book.xlsx", Book([s1, s2], 0)), Str("Sheet2"))) == 1
  {
  }
}
