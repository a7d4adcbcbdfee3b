/** The single-cell image resolver (`get_cell_pic`): a stateless lookup over
    the workbook file, independent of any reader's active sheet. */
module CellImages {
  import opened Values
  import opened Wrappers
  import opened Workbooks

  /** The file write `image.save(new_name)`: where, and which image. */
  datatype Saved = Saved(path: string, image: Image)

  /** What one call does: the value it returns and the file it writes, if any. */
  datatype PicOutcome = PicOutcome(ret: Value, saved: Option<Saved>)

  /** `if new_name:` -- a missing or empty file name counts as not given. */
  predicate Named(newName: Option<string>) {
    newName.Some? && |newName.value| > 0
  }

  /** The PNG bytes of an image, as base64 text or raw. */
  function Payload(libs: Libs, img: Image, base64c: bool): Value {
    if base64c then Str(libs.b64(libs.png(img))) else Bytes(libs.png(img))
  }

  /** `get_cell_pic(filename, sheetnum, position, new_name, base64c)`; `file`
      is what `load_workbook(filename)` parses, `base64c` its truthiness. */
  function GetCellPic(libs: Libs, file: Workbook, sheetnum: int, position: string,
                      newName: Option<string>, base64c: bool): (r: PicOutcome)
    requires -|file.sheets| <= sheetnum < |file.sheets|
    // no image anchored at the position: None, nothing written
    ensures ImageOf(file, sheetnum, position).None? ==> r == PicOutcome(Null, None)
    // an image and a file name: the image is written there and None comes back
    ensures ImageOf(file, sheetnum, position).Some? && Named(newName) ==>
      r == PicOutcome(Null, Some(Saved(newName.value, ImageOf(file, sheetnum, position).value)))
    // an image and no file name: its PNG bytes come back, base64 text or raw, nothing written
    ensures ImageOf(file, sheetnum, position).Some? && !Named(newName) ==>
      r == PicOutcome(Payload(libs, ImageOf(file, sheetnum, position).value, base64c), None)
    // never both a file write and a returned value; the value is None, text or bytes
    ensures r.saved.None? || r.ret.Null?
    ensures r.ret.Null? || r.ret.Str? || r.ret.Bytes?
  {
    var n := |file.sheets|;
    TitleLookup(file, PyIndex(sheetnum, n));
    var sheet := SheetByTitle(file, Titles(file)[PyIndex(sheetnum, n)]);
    if position in sheet.images then
      var image := sheet.images[position];
      if Named(newName) then
        PicOutcome(Null, Some(Saved(newName.value, image)))
      else
        var png := libs.png(image);
        if base64c then PicOutcome(Str(libs.b64(png)), None) else PicOutcome(Bytes(png), None)
    else
      PicOutcome(Null, None)
  }
}
