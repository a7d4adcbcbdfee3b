/** The row reader (`read_row`) and its image backfill (`__cell_pic_try`). */
module RowReader {
  import opened Values
  import opened Wrappers
  import opened Workbooks
  import opened CellImages
  import opened XlsxPic

  /** Whether the backfill consults the resolver for the 0-based column
      `col`: every column when the allow-list is empty, otherwise only the
      columns whose letter is listed. */
  predicate Allowed(libs: Libs, col: nat, picColumn: seq<string>) {
    picColumn == [] || libs.letter(col + 1) in picColumn
  }

  /** One resolver consultation of the backfill: `get_cell_pic` on the active
      sheet without a file name; a falsy result becomes False. */
  function Probe(libs: Libs, x: Reader, pos: string, base64c: bool): (v: Value)
    requires Valid(x)
    ensures v != Null
    ensures ImageAt(ActiveSheet(x), pos).Some? && Truthy(Payload(libs, ActiveSheet(x).images[pos], base64c)) ==>
      v == Payload(libs, ActiveSheet(x).images[pos], base64c)
    ensures ImageAt(ActiveSheet(x), pos).Some? && !Truthy(Payload(libs, ActiveSheet(x).images[pos], base64c)) ==>
      v == Bool(false)
    ensures ImageAt(ActiveSheet(x), pos).None? ==> v == Bool(false)
  {
    var res := GetCellPic(libs, x.book, SheetNum(x), pos, None, base64c).ret;
    if Truthy(res) then res else Bool(false)
  }

  /** What a `None` at 0-based column `col` of row `rowNum` is replaced by. */
  function Fill(libs: Libs, x: Reader, rowNum: int, col: nat, base64c: bool, picColumn: seq<string>): (v: Value)
    requires Valid(x)
    ensures v != Null
    ensures !Allowed(libs, col, picColumn) ==> v == Bool(false)
  {
    if Allowed(libs, col, picColumn) then Probe(libs, x, Coord(libs, col + 1, rowNum), base64c) else Bool(false)
  }

  /** Reference result of the backfill: every `None` filled in its own column, everything else kept. */
  function Backfilled(libs: Libs, x: Reader, rowNum: int, row: seq<Value>, base64c: bool, picColumn: seq<string>): seq<Value>
    requires Valid(x)
  {
    seq(|row|, i requires 0 <= i < |row| => if row[i] != Null then row[i] else Fill(libs, x, rowNum, i, base64c, picColumn))
  }

  /** The 0-based columns the resolver is consulted for. */
  ghost predicate ProbedExactly(libs: Libs, probed: seq<nat>, row: seq<Value>, bound: nat, picColumn: seq<string>) {
    && (forall i: nat :: i in probed <==> i < bound && i < |row| && row[i] == Null && Allowed(libs, i, picColumn))
    && (forall a, b :: 0 <= a < b < |probed| ==> probed[a] < probed[b])
  }

  ghost predicate AllBelow(probed: seq<nat>, bound: nat) {
    forall a :: 0 <= a < |probed| ==> probed[a] < bound
  }

  /** Consulting the resolver for the next `None` (or skipping it) keeps the
      record of consulted columns exact. */
  lemma ProbedStep(libs: Libs, probed: seq<nat>, row: seq<Value>, done: nat, p: nat, picColumn: seq<string>)
    requires ProbedExactly(libs, probed, row, done, picColumn)
    requires AllBelow(probed, done)
    requires done <= p < |row| && row[p] == Null
    requires forall j :: done <= j < p ==> row[j] != Null
    ensures ProbedExactly(libs, probed + (if Allowed(libs, p, picColumn) then [p] else []), row, p + 1, picColumn)
    ensures AllBelow(probed + (if Allowed(libs, p, picColumn) then [p] else []), p + 1)
  {
  }

  /** The reference result keeps the length, leaves no `None`, keeps every
      other entry and fills each `None` from its own column. */
  lemma BackfilledShape(libs: Libs, x: Reader, rowNum: int, row: seq<Value>, base64c: bool, picColumn: seq<string>)
    requires Valid(x)
    ensures |Backfilled(libs, x, rowNum, row, base64c, picColumn)| == |row|
    ensures forall i :: 0 <= i < |row| ==> Backfilled(libs, x, rowNum, row, base64c, picColumn)[i] != Null
    ensures forall i :: 0 <= i < |row| && row[i] != Null ==> Backfilled(libs, x, rowNum, row, base64c, picColumn)[i] == row[i]
    ensures forall i :: 0 <= i < |row| && row[i] == Null ==>
      Backfilled(libs, x, rowNum, row, base64c, picColumn)[i] == Fill(libs, x, rowNum, i, base64c, picColumn)
  {
  }

  /** One pass of the backfill loop for the `None` at 0-based column `p`:
      build the coordinate, then consult the resolver or skip the column.
      `consulted` tells whether the resolver was called. */
  method ReplaceBlank(libs: Libs, x: Reader, rowNum: int, p: nat, base64c: bool, picColumn: seq<string>)
    returns (v: Value, consulted: bool)
    requires Valid(x)
    ensures v == Fill(libs, x, rowNum, p, base64c, picColumn)
    ensures v != Null
    ensures consulted <==> Allowed(libs, p, picColumn)
  {
    var letter := libs.letter(p + 1);
    var pos := letter + PyStr(rowNum);
    if picColumn == [] {
      v := Probe(libs, x, pos, base64c);
      consulted := true;
    } else if letter in picColumn {
      v := Probe(libs, x, pos, base64c);
      consulted := true;
    } else {
      v := Bool(false);
      consulted := false;
    }
  }

  /** The `while None in current_row_list` loop: repeatedly replace the first
      remaining `None`. Ends because every pass removes one `None`. */
  method ReplaceAllBlanks(libs: Libs, x: Reader, rowNum: int, row: seq<Value>, base64c: bool, picColumn: seq<string>)
    returns (current: seq<Value>, probed: seq<nat>)
    requires Valid(x)
    ensures current == Backfilled(libs, x, rowNum, row, base64c, picColumn)
    ensures ProbedExactly(libs, probed, row, |row|, picColumn)
  {
    current := row;
    probed := [];
    ghost var target := Backfilled(libs, x, rowNum, row, base64c, picColumn);
    BackfilledShape(libs, x, rowNum, row, base64c, picColumn);
    ghost var done: nat := 0;
    while Null in current
      invariant |current| == |row|
      invariant done <= |row|
      invariant forall j :: 0 <= j < done ==> current[j] == target[j]
      invariant forall j :: done <= j < |row| ==> current[j] == row[j]
      invariant ProbedExactly(libs, probed, row, done, picColumn)
      invariant AllBelow(probed, done)
      decreases CountNull(current)
    {
      var p := IndexOf(current, Null);
      assert forall j :: 0 <= j < done ==> current[j] != Null;
      var v, consulted := ReplaceBlank(libs, x, rowNum, p, base64c, picColumn);
      assert forall j :: done <= j < p ==> row[j] != Null;
      ProbedStep(libs, probed, row, done, p, picColumn);
      if consulted {
        probed := probed + [p];
      }
      CountNullUpdate(current, p, v);
      current := current[p := v];
      done := p + 1;
    }
    assert forall j :: done <= j < |row| ==> row[j] != Null;
  }

  /** `__cell_pic_try(row_num, current_row_list, base64c, pic_column)`.
      `probed` lists, in call order, the 0-based columns for which the
      resolver was consulted. */
  method CellPicTry(libs: Libs, x: Reader, rowNum: int, row: seq<Value>, base64c: bool, picColumn: seq<string>)
    returns (result: Option<seq<Value>>, probed: seq<nat>)
    requires Valid(x)
    // a list without a None is not backfilled: None comes back
    ensures Null !in row ==> result.None? && probed == []
    ensures Null in row ==> result.Some?
    // same length, no None left, every non-None entry unchanged
    ensures result.Some? ==> |result.value| == |row|
    ensures result.Some? ==> forall i :: 0 <= i < |row| ==> result.value[i] != Null
    ensures result.Some? ==> forall i :: 0 <= i < |row| && row[i] != Null ==> result.value[i] == row[i]
    // each None is filled according to its own column
    ensures result.Some? ==> forall i :: 0 <= i < |row| && row[i] == Null ==>
      result.value[i] == Fill(libs, x, rowNum, i, base64c, picColumn)
    ensures result.Some? ==> result.value == Backfilled(libs, x, rowNum, row, base64c, picColumn)
    // the resolver is consulted exactly for the None entries in allowed columns, left to right
    ensures ProbedExactly(libs, probed, row, |row|, picColumn)
  {
    if Null !in row {
      return None, [];
    }
    var current;
    current, probed := ReplaceAllBlanks(libs, x, rowNum, row, base64c, picColumn);
    BackfilledShape(libs, x, rowNum, row, base64c, picColumn);
    return Some(current), probed;
  }

  /** `sheet[row_num]` of the active sheet, as values. */
  function ActiveRow(libs: Libs, x: Reader, rowNum: int): seq<Value>
    requires Valid(x)
  {
    RawRow(libs, ActiveSheet(x), rowNum)
  }

  /** `read_row(row_num, base64c, read_cell_picture, pic_column)`. Rows are 1-based. */
  method ReadRow(libs: Libs, x: Reader, rowNum: int, base64c: bool, readCellPicture: bool, picColumn: seq<string>)
    returns (result: Option<seq<Value>>, probed: seq<nat>)
    requires Valid(x)
    requires rowNum >= 1
    // None for an all-None row, whatever the flags
    ensures BlankRow(ActiveRow(libs, x, rowNum)) ==> result.None? && probed == []
    // the raw values when no backfill is asked for
    ensures !BlankRow(ActiveRow(libs, x, rowNum)) && !readCellPicture ==>
      result == Some(ActiveRow(libs, x, rowNum)) && probed == []
    // backfill asked for on a row without a blank cell: None as well
    ensures !BlankRow(ActiveRow(libs, x, rowNum)) && readCellPicture && Null !in ActiveRow(libs, x, rowNum) ==>
      result.None?
    // backfill asked for on a row with a value and a blank: the backfilled row
    ensures !BlankRow(ActiveRow(libs, x, rowNum)) && readCellPicture && Null in ActiveRow(libs, x, rowNum) ==>
      result == Some(Backfilled(libs, x, rowNum, ActiveRow(libs, x, rowNum), base64c, picColumn))
    // the resolver is consulted only when backfilling, and then exactly as the backfill says
    ensures !readCellPicture ==> probed == []
    ensures !BlankRow(ActiveRow(libs, x, rowNum)) && readCellPicture ==>
      ProbedExactly(libs, probed, ActiveRow(libs, x, rowNum), |ActiveRow(libs, x, rowNum)|, picColumn)
  {
    var row := ActiveRow(libs, x, rowNum);
    if BlankRow(row) {
      return None, [];
    }
    if readCellPicture {
      // both calls in `read_row` pass the same allow-list on
      result, probed := CellPicTry(libs, x, rowNum, row, base64c, picColumn);
      return;
    }
    return Some(row), [];
  }
}
