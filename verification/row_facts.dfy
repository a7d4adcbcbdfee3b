/** Facts relating the backfill to the sheet it reads and to the cell reader. */
module RowFacts {
  import opened Values
  import opened Workbooks
  import opened CellImages
  import opened XlsxPic
  import opened RowReader

  /** A `None` in an allowed column becomes the PNG payload of the image the
      active sheet anchors at that cell, provided that payload is non-empty;
      in every other case it becomes False. */
  lemma FillFromActiveSheet(libs: Libs, x: Reader, rowNum: int, col: nat, base64c: bool, picColumn: seq<string>)
    requires Valid(x)
    ensures var img := ImageAt(ActiveSheet(x), Coord(libs, col + 1, rowNum));
      Fill(libs, x, rowNum, col, base64c, picColumn) ==
        if Allowed(libs, col, picColumn) && img.Some? && Truthy(Payload(libs, img.value, base64c))
        then Payload(libs, img.value, base64c)
        else Bool(false)
  {
  }

  /** With base64 output, backfilling a blank cell of an allowed column gives
      what the cell reader gives for that coordinate, or False where that is falsy. */
  lemma FillAgreesWithReadCell(libs: Libs, x: Reader, rowNum: int, col: nat, picColumn: seq<string>)
    requires Valid(x)
    requires Allowed(libs, col, picColumn)
    requires CellValue(ActiveSheet(x), Coord(libs, col + 1, rowNum)) == Null
    ensures var r := ReadCell(libs, x, Coord(libs, col + 1, rowNum));
      Fill(libs, x, rowNum, col, true, picColumn) == if Truthy(r) then r else Bool(false)
  {
  }

  /** Row 3 reads ["Alice", None, 30] and no image sits at B3: the backfill gives ["Alice", False, 30]. */
  lemma AliceRow(libs: Libs, x: Reader, base64c: bool)
    requires Valid(x)
    requires ImageAt(ActiveSheet(x), Coord(libs, 2, 3)).None?
    ensures Backfilled(libs, x, 3, [Str("Alice"), Null, Int(30)], base64c, []) == [Str("Alice"), Bool(false), Int(30)]
  {
  }
}
