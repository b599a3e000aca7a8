/**
 * The CSV preview tool: detects the encoding (byte-order marks first, then strict
 * UTF-8, cp1252, latin-1), falls back to the excel dialect when sniffing fails,
 * and copies the header plus a budget of data rows to a `_preview` file.
 */
module CsvPreview {
  import opened Outcome
  import opened Text
  import opened Encodings
  import Paths
  import CsvUniques

  const PreviewRows: int := 1000
  const EncodingSampleBytes: nat := 2000000

  /** `detect_encoding`: marks in fixed priority, then trial decoding of the sample. */
  function DetectEncoding(file: seq<Byte>): (r: Encoding)
    ensures var raw := CsvUniques.Sample(file, EncodingSampleBytes);
      && (!HasBom(raw) ==> r == Utf8 || r == Cp1252 || r == Latin1)
      && (r == Utf8 ==> ValidUtf8(raw))
      && (r == Latin1 ==> !ValidUtf8(raw) && !Cp1252Decodable(raw))
  {
    var raw := CsvUniques.Sample(file, EncodingSampleBytes);
    if StartsWith(raw, Utf8Bom) then Utf8Sig
    else if StartsWith(raw, Utf32LeBom) then Utf32Le
    else if StartsWith(raw, Utf32BeBom) then Utf32Be
    else if StartsWith(raw, Utf16LeBom) then Utf16Le
    else if StartsWith(raw, Utf16BeBom) then Utf16Be
    else if ValidUtf8(raw) then Utf8
    else if Cp1252Decodable(raw) then Cp1252
    else Latin1
  }

  predicate HasBom(b: seq<Byte>)
  {
    StartsWith(b, Utf8Bom) || StartsWith(b, Utf32LeBom) || StartsWith(b, Utf32BeBom)
    || StartsWith(b, Utf16LeBom) || StartsWith(b, Utf16BeBom)
  }

  lemma SamplePrefix(file: seq<Byte>, mark: seq<Byte>)
    requires |mark| <= 4
    ensures StartsWith(CsvUniques.Sample(file, EncodingSampleBytes), mark) <==> StartsWith(file, mark)
  {
    var s := CsvUniques.Sample(file, EncodingSampleBytes);
    if |file| >= |mark| {
      assert s[..|mark|] == file[..|mark|];
    }
  }

  /** Each byte-order mark selects its encoding; the UTF-32 LE mark wins over the UTF-16 LE mark it begins with. */
  lemma DetectEncodingMarks(file: seq<Byte>)
    ensures StartsWith(file, Utf8Bom) ==> DetectEncoding(file) == Utf8Sig
    ensures StartsWith(file, Utf32LeBom) ==> DetectEncoding(file) == Utf32Le
    ensures StartsWith(file, Utf32BeBom) ==> DetectEncoding(file) == Utf32Be
    ensures StartsWith(file, Utf16LeBom) && !StartsWith(file, Utf32LeBom) ==> DetectEncoding(file) == Utf16Le
    ensures StartsWith(file, Utf16BeBom) ==> DetectEncoding(file) == Utf16Be
  {
    SamplePrefix(file, Utf8Bom);
    SamplePrefix(file, Utf32LeBom);
    SamplePrefix(file, Utf32BeBom);
    SamplePrefix(file, Utf16LeBom);
    SamplePrefix(file, Utf16BeBom);
  }

  /** Without a mark: utf-8 exactly when the sample is valid UTF-8, else cp1252 when it decodes, else latin-1. */
  lemma DetectEncodingWithoutMark(file: seq<Byte>)
    requires !HasBom(file)
    ensures var s := CsvUniques.Sample(file, EncodingSampleBytes);
            && (DetectEncoding(file) == Utf8 <==> ValidUtf8(s))
            && (DetectEncoding(file) == Cp1252 <==> !ValidUtf8(s) && Cp1252Decodable(s))
            && (DetectEncoding(file) == Latin1 <==> !ValidUtf8(s) && !Cp1252Decodable(s))
  {
    SamplePrefix(file, Utf8Bom);
    SamplePrefix(file, Utf32LeBom);
    SamplePrefix(file, Utf32BeBom);
    SamplePrefix(file, Utf16LeBom);
    SamplePrefix(file, Utf16BeBom);
  }

  /** An empty file reads as UTF-8. */
  lemma DetectEncodingEmpty()
    ensures DetectEncoding([]) == Utf8
  {
  }

  /** The mark-free answer always decodes the sample it was chosen for. */
  lemma DetectedEncodingDecodes(file: seq<Byte>)
    ensures var s := CsvUniques.Sample(file, EncodingSampleBytes);
            && (DetectEncoding(file) == Utf8 ==> ValidUtf8(s))
            && (DetectEncoding(file) == Cp1252 ==> Cp1252Decodable(s))
  {
  }

  /**
   * `sniff_dialect_and_header`: `sniffed` is None where reading or sniffing raises,
   * `headerGuess` None where `has_header` raises.
   */
  function SniffDialectAndHeader<D>(sniffed: Option<D>, headerGuess: Option<bool>, excel: D): (r: (D, bool))
    ensures sniffed.None? ==> r == (excel, true)
    ensures sniffed.Some? ==> r.0 == sniffed.value
    ensures r.1 <==> sniffed.None? || headerGuess != Some(false)
  {
    match sniffed
    case None => (excel, true)
    case Some(d) => (d, if headerGuess.Some? then headerGuess.value else true)
  }

  datatype PreviewFailure = FileNotFound

  /** What the tool writes: the output name, the rows, and the progress bar's final total. */
  datatype Preview = Preview(outputName: string, rows: seq<seq<string>>, barTotal: Option<int>)

  function Min(a: int, b: int): int { if a < b then a else b }
  function Max(a: int, b: int): int { if a < b then b else a }

  /** How many rows the preview holds for `m` input rows. */
  function PreviewLength(m: nat, hasHeader: bool, limit: int): (n: nat)
    requires m > 0
    ensures n <= m
  {
    if hasHeader then 1 + Min(Max(limit, 0), m - 1) else Max(1, Min(limit, m))
  }

  /** The copy loop: the first row, then data rows while fewer than `limit` have been written. */
  method CopyRows(rows: seq<seq<string>>, hasHeader: bool, limit: int) returns (written: seq<seq<string>>, rowsWritten: int)
    requires rows != []
    ensures written == rows[..PreviewLength(|rows|, hasHeader, limit)]
    ensures rowsWritten == if hasHeader then |written| - 1 else |written|
  {
    written := [rows[0]];
    rowsWritten := 0;
    if !hasHeader {
      rowsWritten := 1;
    }
    var k := 1;
    while k < |rows|
      invariant 1 <= k <= |rows|
      invariant written == rows[..k]
      invariant rowsWritten == if hasHeader then k - 1 else k
      invariant k > 1 ==> rowsWritten <= limit
      decreases |rows| - k
    {
      if rowsWritten >= limit {
        break;
      }
      written := written + [rows[k]];
      rowsWritten := rowsWritten + 1;
      k := k + 1;
    }
  }

  /**
   * `create_csv_preview`: copies the first row (header or data) and then data rows
   * until `limit` data rows are written or the input ends.
   */
  method CreatePreview(exists_: bool, name: string, rows: seq<seq<string>>, hasHeader: bool, previewRows: int)
    returns (r: Result<Preview, PreviewFailure>)
    ensures !exists_ <==> r == Failure(FileNotFound)
    ensures exists_ ==> r.Success? && r.value.outputName == Paths.OutputName(name, "_preview")
    ensures exists_ && rows == [] ==> r.value.rows == [] && r.value.barTotal.None?
    ensures exists_ && rows != [] ==> r.value.rows == rows[..PreviewLength(|rows|, hasHeader, previewRows)]
    ensures exists_ && rows != [] ==>
              var data := if hasHeader then |r.value.rows| - 1 else |r.value.rows|;
              r.value.barTotal == Some(if data < previewRows then data else previewRows)
  {
    if !exists_ {
      return Failure(FileNotFound);
    }
    var outputName := Paths.OutputName(name, "_preview");
    if rows == [] {
      return Success(Preview(outputName, [], None));
    }
    var written, rowsWritten := CopyRows(rows, hasHeader, previewRows);
    var limit := previewRows;
    var barTotal := if rowsWritten < limit then rowsWritten else limit;
    return Success(Preview(outputName, written, Some(barTotal)));
  }

  /** The preview is an unmodified, in-order prefix of the input that always keeps the first row. */
  lemma PreviewIsPrefix(rows: seq<seq<string>>, hasHeader: bool, limit: int)
    requires rows != []
    ensures var n := PreviewLength(|rows|, hasHeader, limit);
            1 <= n <= |rows| && rows[..n][0] == rows[0] && forall i :: 0 <= i < n ==> rows[..n][i] == rows[i]
  {
  }

  /** The data-row budget: at most `limit` data rows, and exactly that many when the input has them. */
  lemma PreviewBudget(m: nat, hasHeader: bool, limit: int)
    requires m > 0
    ensures var data := if hasHeader then PreviewLength(m, hasHeader, limit) - 1 else PreviewLength(m, hasHeader, limit);
            && (hasHeader ==> data <= Max(limit, 0))
            && (!hasHeader && limit >= 1 ==> data <= limit)
            && (!hasHeader ==> data >= 1)
            && (limit >= 0 && m - (if hasHeader then 1 else 0) >= limit ==> data == Max(limit, if hasHeader then 0 else 1))
  {
  }
}
