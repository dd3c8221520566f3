/**
 * Loading the sheets of an uploaded workbook (initialize, identical in both engines):
 * the file-name test, the format sniffing outcome, the sheet count and the
 * hidden-sheet check. The bytes and the workbook parser are not modelled: an upload
 * is given as its name, its detected format and its sheets with their visibility.
 */
module Workbooks {
  import opened Wrappers
  import opened Schema
  import opened Sheets

  /** The outcome of FileMagic.valueOf on the upload's bytes. */
  datatype FileMagic = OOXML | OLE2 | OtherMagic

  /** A sheet of the workbook with its visibility (SheetVisibility.HIDDEN or not). */
  datatype BookSheet = BookSheet(sheet: Sheet, hidden: bool)

  /** An uploaded file: its original name, its detected format and its sheets. */
  datatype Upload = Upload(fileName: string, magic: FileMagic, book: seq<BookSheet>)

  /** The characters `.` does not match in a Java regular expression. */
  predicate IsLineTerminator(c: char) {
    c == '\n' || c == '\r' || c == '\U{0085}' || c == '\U{2028}' || c == '\U{2029}'
  }

  /** ASCII lower case, the only folding (?i) does without UNICODE_CASE. */
  function LowerAscii(c: char): char {
    if 'A' <= c <= 'Z' then (c as int + 32) as char else c
  }

  /**
   * fileName.matches("^.+\\.(?i)(ext)$") for a lower-case `ext`: a non-empty stem
   * without line terminators, a dot, then `ext` in any letter case.
   */
  predicate HasExtension(name: string, ext: string) {
    var n := |name| - |ext| - 1;
    n >= 1 && name[n] == '.'
    && (forall i :: 0 <= i < n ==> !IsLineTerminator(name[i]))
    && (forall j :: 0 <= j < |ext| ==> LowerAscii(name[n + 1 + j]) == ext[j])
  }

  /** The names initialize accepts. */
  predicate IsExcelFileName(name: string) {
    HasExtension(name, "xls") || HasExtension(name, "xlsx")
  }

  /**
   * initialize(file, sheetNum): the first `sheetNum` sheets, or the exception thrown,
   * in the order the checks are made.
   */
  function Opened(file: Option<Upload>, sheetNum: int): Result<seq<Sheet>, Error> {
    if file.None? then Failure(NoFile)
    else if !IsExcelFileName(file.value.fileName) then Failure(UnsupportedFormat(file.value.fileName))
    else if file.value.magic == OtherMagic then Failure(UnknownContent)
    else if sheetNum > |file.value.book| then Failure(SheetNumOutOfBounds)
    else if sheetNum < 0 then Failure(NegativeSheetNum)
    else if exists i :: 0 <= i < sheetNum && file.value.book[i].hidden then Failure(HiddenSheet)
    else Success(seq(sheetNum, i requires 0 <= i < sheetNum => file.value.book[i].sheet))
  }

  /** The copy loop of initialize: sheet by sheet, failing at the first hidden one. */
  method OpenSheets(file: Option<Upload>, sheetNum: int) returns (r: Result<seq<Sheet>, Error>)
    ensures r == Opened(file, sheetNum)
  {
    if file.None? {
      return Failure(NoFile);
    }
    var upload := file.value;
    if !IsExcelFileName(upload.fileName) {
      return Failure(UnsupportedFormat(upload.fileName));
    }
    if upload.magic == OtherMagic {
      return Failure(UnknownContent);
    }
    if sheetNum > |upload.book| {
      return Failure(SheetNumOutOfBounds);
    }
    if sheetNum < 0 {
      return Failure(NegativeSheetNum);
    }
    var sheets: seq<Sheet> := [];
    var i := 0;
    while i < sheetNum
      invariant 0 <= i <= sheetNum
      invariant |sheets| == i
      invariant forall k :: 0 <= k < i ==> !upload.book[k].hidden && sheets[k] == upload.book[k].sheet
    {
      if upload.book[i].hidden {
        return Failure(HiddenSheet);
      }
      sheets := sheets + [upload.book[i].sheet];
      i := i + 1;
    }
    assert sheets == seq(sheetNum, k requires 0 <= k < sheetNum => upload.book[k].sheet);
    return Success(sheets);
  }

  /** A successful load holds exactly the first `sheetNum` sheets, none of them hidden. */
  lemma OpenedSheets(file: Option<Upload>, sheetNum: int)
    requires Opened(file, sheetNum).Success?
    ensures file.Some? && IsExcelFileName(file.value.fileName) && file.value.magic != OtherMagic
    ensures 0 <= sheetNum <= |file.value.book|
    ensures var sheets := Opened(file, sheetNum).value;
      |sheets| == sheetNum && forall i :: 0 <= i < sheetNum ==> !file.value.book[i].hidden && sheets[i] == file.value.book[i].sheet
  {
  }

  /** A hidden sheet among the first `sheetNum` of a well-formed upload makes the load fail. */
  lemma HiddenSheetRejected(upload: Upload, sheetNum: int, i: int)
    requires IsExcelFileName(upload.fileName) && upload.magic != OtherMagic
    requires 0 <= i < sheetNum <= |upload.book| && upload.book[i].hidden
    ensures Opened(Some(upload), sheetNum) == Failure(HiddenSheet)
  {
  }

  /** Any non-empty stem free of line terminators, with an xls or xlsx extension in any case, is accepted. */
  lemma ExcelNamesAccepted(stem: string, ext: string)
    requires stem != [] && forall i :: 0 <= i < |stem| ==> !IsLineTerminator(stem[i])
    requires |ext| == 3 || |ext| == 4
    requires forall j :: 0 <= j < |ext| ==> LowerAscii(ext[j]) == "xlsx"[j]
    ensures IsExcelFileName(stem + "." + ext)
  {
    var name := stem + "." + ext;
    if |ext| == 3 {
      assert forall j :: 0 <= j < 3 ==> name[|stem| + 1 + j] == ext[j];
      assert HasExtension(name, "xls");
    } else {
      assert forall j :: 0 <= j < 4 ==> name[|stem| + 1 + j] == ext[j];
      assert HasExtension(name, "xlsx");
    }
  }

  /** Names the test rejects: no stem, another extension, a line break in the stem. */
  lemma OtherNamesRejected()
    ensures !IsExcelFileName(".xls")
    ensures !IsExcelFileName("book.xlsm")
    ensures !IsExcelFileName("book.csv")
    ensures !IsExcelFileName("a\nb.xlsx")
  {
    assert !HasExtension("book.xlsm", "xlsx") by {
      assert LowerAscii("book.xlsm"[8]) != "xlsx"[3];
    }
    assert !HasExtension("book.csv", "xls") by {
      assert LowerAscii("book.csv"[5]) != "xls"[0];
    }
    assert !HasExtension("a\nb.xlsx", "xlsx") by {
      assert IsLineTerminator("a\nb.xlsx"[1]);
    }
  }
}
