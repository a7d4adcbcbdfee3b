/** The parsed contents of a spreadsheet file and the library oracles the
    reader consults. The spreadsheet parser, the image-anchor index, the
    column-letter converter and the PNG/base64 encoders are not modelled:
    a workbook is plain data and the converters are parameters. */
module Workbooks {
  import opened Values
  import opened Wrappers

  /** An embedded image object as the image loader hands it out. */
  datatype Image = Image(format: string, data: seq<Byte>)

  /** One sheet: its title, its column extent (`max_column`), the values of its
      non-empty cells and its images, both keyed by coordinate ("E2"). */
  datatype Sheet = Sheet(title: string, maxColumn: nat, cells: map<string, Value>, images: map<string, Image>)

  /** The sheets of a file in declaration order, and the sheet the file marks as active. */
  datatype Book = Book(sheets: seq<Sheet>, activeTab: nat)

  predicate Distinct<T(==)>(s: seq<T>) {
    forall i, j :: 0 <= i < j < |s| ==> s[i] != s[j]
  }

  /** `wb.sheetnames`. */
  function Titles(b: Book): seq<string> {
    seq(|b.sheets|, i requires 0 <= i < |b.sheets| => b.sheets[i].title)
  }

  /** What the spreadsheet format guarantees of a file that opened: at least
      one sheet, unique sheet titles, an active tab that exists. */
  predicate WellFormed(b: Book) {
    && |b.sheets| >= 1
    && b.activeTab < |b.sheets|
    && Distinct(Titles(b))
  }

  type Workbook = b: Book | WellFormed(b) witness Book([Sheet("Sheet", 0, map[], map[])], 0)

  /** The external collaborators: `get_column_letter`, PNG re-encoding of an
      image, and standard base64 text encoding (section 4 of RFC 4648). */
  datatype Libs = Libs(letter: int -> string, png: Image -> seq<Byte>, b64: seq<Byte> -> string)

  /** Python list indexing with a possibly negative index. */
  function PyIndex(k: int, n: nat): (i: nat)
    requires -(n as int) <= k < n
    ensures i < n
    ensures k >= 0 ==> i == k
    ensures k < 0 ==> i == n + k
  {
    if k < 0 then n + k else k
  }

  /** `wb[name]`: the sheet with the given title. */
  function SheetByTitle(b: Book, name: string): Sheet
    requires name in Titles(b)
  {
    b.sheets[IndexOf(Titles(b), name)]
  }

  /** In a well-formed workbook, looking a sheet up by its own title finds that sheet. */
  lemma TitleLookup(b: Workbook, i: nat)
    requires i < |b.sheets|
    ensures Titles(b)[i] in Titles(b)
    ensures IndexOf(Titles(b), Titles(b)[i]) == i
    ensures SheetByTitle(b, Titles(b)[i]) == b.sheets[i]
  {
  }

  /** `sheet[pos].value`: an empty cell reads as None. */
  function CellValue(sheet: Sheet, coord: string): Value {
    if coord in sheet.cells then sheet.cells[coord] else Null
  }

  /** `image_in(pos)` together with `get(pos)` of the image loader. */
  function ImageAt(sheet: Sheet, coord: string): Option<Image> {
    if coord in sheet.images then Some(sheet.images[coord]) else None
  }

  /** The image the sheet at a Python index anchors at a coordinate. */
  function ImageOf(file: Book, sheetnum: int, position: string): Option<Image>
    requires -|file.sheets| <= sheetnum < |file.sheets|
  {
    ImageAt(file.sheets[PyIndex(sheetnum, |file.sheets|)], position)
  }

  /** `get_column_letter(col) + str(row_num)`, with `col` 1-based. */
  function Coord(libs: Libs, col: int, rowNum: int): string {
    libs.letter(col) + PyStr(rowNum)
  }

  /** The values of `sheet[row_num]`: columns 1 to `max_column`, in order. */
  function RawRow(libs: Libs, sheet: Sheet, rowNum: int): seq<Value> {
    seq(sheet.maxColumn, i requires 0 <= i < sheet.maxColumn => CellValue(sheet, Coord(libs, i + 1, rowNum)))
  }

  ghost predicate InjectiveLetters(libs: Libs) {
    forall a: int, b: int :: 1 <= a && 1 <= b && libs.letter(a) == libs.letter(b) ==> a == b
  }

  /** Column letters are upper-case Latin letters. */
  ghost predicate UpperLetters(libs: Libs) {
    forall n: int :: 1 <= n ==> forall k :: 0 <= k < |libs.letter(n)| ==> 'A' <= libs.letter(n)[k] <= 'Z'
  }

  /** With an injective converter to upper-case letters, two different cells
      (another column, another row, or both) have different coordinates. */
  lemma CoordInjective(libs: Libs, a: int, rowA: int, b: int, rowB: int)
    requires InjectiveLetters(libs) && UpperLetters(libs)
    requires 1 <= a && 1 <= b && (a != b || rowA != rowB)
    ensures Coord(libs, a, rowA) != Coord(libs, b, rowB)
  {
    var la, lb, da, db := libs.letter(a), libs.letter(b), PyStr(rowA), PyStr(rowB);
    var ca, cb := la + da, lb + db;
    if |la| < |lb| {
      // where `a`'s number starts, `b`'s letters go on
      assert ca[|la|] == da[0] && cb[|la|] == lb[|la|];
      assert ca[|la|] != cb[|la|];
    } else if |lb| < |la| {
      assert cb[|lb|] == db[0] && ca[|lb|] == la[|lb|];
      assert ca[|lb|] != cb[|lb|];
    } else if a != b {
      assert ca[..|la|] == la && cb[..|lb|] == lb;
    } else {
      PyStrInjective(rowA, rowB);
      assert ca[|la|..] == da && cb[|lb|..] == db;
    }
  }
}
