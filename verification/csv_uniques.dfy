/**
 * The CSV unique-values extractor: for every column of a CSV file, the distinct
 * normalised cell values in order of first appearance, collected chunk by chunk,
 * then padded into a rectangle for output. Also its encoding trial, delimiter
 * fallback and newline pre-count.
 */
module CsvUniques {
  import opened Outcome
  import opened Text
  import opened Sequences
  import opened Encodings

  const ChunkRows: nat := 200000
  const DelimiterCandidates: seq<char> := [',', '\t', ';', '|', '^', '~']
  const EncodingCandidates: seq<Encoding> := [Utf8Sig, Utf8, Cp1252, Latin1]
  const RowCountBlockBytes: nat := 64 * 1024 * 1024
  const EncodingSampleBytes: nat := 2000000

  /** A cell as pandas hands it over: Python's None, a float NaN, or a string. */
  datatype Cell = NoneCell | NaNCell | Str(text: string)

  /** `normalize_value`: None becomes "", anything else `str(x).strip()`. */
  function NormalizeValue(x: Cell): (r: string)
    ensures Trimmed(r)
    ensures x.NoneCell? ==> r == ""
    ensures x.Str? && AllSpace(x.text) ==> r == ""
  {
    match x
    case NoneCell => ""
    case NaNCell => "nan"
    case Str(t) => Strip(t)
  }

  /** Normalising a normalised value changes nothing. */
  lemma NormalizeIdempotent(x: Cell)
    ensures NormalizeValue(Str(NormalizeValue(x))) == NormalizeValue(x)
  {
    var r := NormalizeValue(x);
    StripPadded([], r, []);
    assert [] + r + [] == r;
  }

  /** A float NaN is not turned into "": `str(nan)` is "nan". */
  lemma NormalizeNaN()
    ensures NormalizeValue(NaNCell) != ""
  {
  }

  function NormalizeAll(cells: seq<Cell>): (r: seq<string>)
    ensures |r| == |cells|
  {
    if cells == [] then [] else NormalizeAll(cells[..|cells| - 1]) + [NormalizeValue(cells[|cells| - 1])]
  }

  lemma {:induction false} NormalizeAllAt(cells: seq<Cell>, k: nat)
    requires k < |cells|
    ensures NormalizeAll(cells)[k] == NormalizeValue(cells[k])
  {
    if k < |cells| - 1 {
      NormalizeAllAt(cells[..|cells| - 1], k);
    }
  }

  /** One chunk of rows: the cells of each column present in it. */
  datatype Chunk = Chunk(columns: map<string, seq<Cell>>, rows: nat)

  predicate WellFormed(ch: Chunk)
  {
    forall c :: c in ch.columns ==> |ch.columns[c]| == ch.rows
  }

  /** The column `c` of a chunk once absent columns are filled with "". */
  function ColumnCells(ch: Chunk, c: string): seq<Cell>
  {
    if c in ch.columns then ch.columns[c] else seq(ch.rows, _ => Str(""))
  }

  /** The normalised values of column `c` across the chunks, in reading order. */
  function ColumnStream(chunks: seq<Chunk>, c: string): seq<string>
  {
    if chunks == [] then []
    else ColumnStream(chunks[..|chunks| - 1], c) + NormalizeAll(ColumnCells(chunks[|chunks| - 1], c))
  }

  function TotalRows(chunks: seq<Chunk>): nat
  {
    if chunks == [] then 0 else TotalRows(chunks[..|chunks| - 1]) + chunks[|chunks| - 1].rows
  }

  /** Adds `chunk[c] = ""` for every declared column the chunk lacks. */
  method FillMissingColumns(ch: Chunk, columns: seq<string>) returns (filled: Chunk)
    ensures filled.rows == ch.rows
    ensures filled.columns.Keys == ch.columns.Keys + Elems(columns)
    ensures forall c :: c in filled.columns ==> filled.columns[c] == ColumnCells(ch, c)
  {
    var cols := ch.columns;
    for j := 0 to |columns|
      invariant cols.Keys == ch.columns.Keys + Elems(columns[..j])
      invariant forall c :: c in cols ==> cols[c] == ColumnCells(ch, c)
    {
      assert columns[..j + 1] == columns[..j] + [columns[j]];
      if columns[j] !in cols {
        cols := cols[columns[j] := seq(ch.rows, _ => Str(""))];
      }
    }
    assert columns[..|columns|] == columns;
    filled := Chunk(cols, ch.rows);
  }

  /** The per-column state: `values[c]` de-duplicates `s` and `seen[c]` is its set of elements. */
  ghost predicate Represents(seen: map<string, set<string>>, values: map<string, seq<string>>, c: string, s: seq<string>)
  {
    c in seen && c in values && values[c] == Uniques(s) && seen[c] == Elems(values[c])
  }

  lemma RepresentsStep(seen: map<string, set<string>>, values: map<string, seq<string>>, c: string, s: seq<string>, v: string)
    requires Represents(seen, values, c, s)
    ensures v in seen[c] ==> Represents(seen, values, c, s + [v])
    ensures v !in seen[c] ==> Represents(seen[c := seen[c] + {v}], values[c := values[c] + [v]], c, s + [v])
  {
    UniquesSnoc(s, v);
  }

  lemma ColumnStreamStep(chunks: seq<Chunk>, i: nat, c: string)
    requires i < |chunks|
    ensures ColumnStream(chunks[..i + 1], c) == ColumnStream(chunks[..i], c) + NormalizeAll(ColumnCells(chunks[i], c))
  {
    assert chunks[..i + 1][..i] == chunks[..i];
  }

  lemma TotalRowsStep(chunks: seq<Chunk>, i: nat)
    requires i < |chunks|
    ensures TotalRows(chunks[..i + 1]) == TotalRows(chunks[..i]) + chunks[i].rows
  {
    assert chunks[..i + 1][..i] == chunks[..i];
  }

  lemma NormalizePrefixStep(before: seq<string>, cells: seq<Cell>, k: nat)
    requires k < |cells|
    ensures before + NormalizeAll(cells[..k + 1]) == (before + NormalizeAll(cells[..k])) + [NormalizeValue(cells[k])]
  {
    assert cells[..k + 1][..k] == cells[..k];
  }

  /** One value of the stream: a de-duplication and its set of elements gain `v` on its first occurrence. */
  lemma UniqueStep(s: seq<string>, st: set<string>, v: string)
    requires st == Elems(Uniques(s))
    ensures v in st ==> Uniques(s + [v]) == Uniques(s)
    ensures v !in st ==> Uniques(s + [v]) == Uniques(s) + [v] && st + {v} == Elems(Uniques(s) + [v])
  {
    UniquesSnoc(s, v);
  }

  /** The inner loop over one column's cells: `values[col]` gains each value met for the first time. */
  method CollectColumn(seen: map<string, set<string>>, values: map<string, seq<string>>, col: string,
                       cells: seq<Cell>, ghost before: seq<string>)
    returns (seen': map<string, set<string>>, values': map<string, seq<string>>)
    requires Represents(seen, values, col, before)
    ensures Represents(seen', values', col, before + NormalizeAll(cells))
    ensures seen' == seen[col := seen'[col]] && values' == values[col := values'[col]]
  {
    var st, vs := seen[col], values[col];
    assert before + NormalizeAll(cells[..0]) == before by { assert cells[..0] == []; }
    for k := 0 to |cells|
      invariant vs == Uniques(before + NormalizeAll(cells[..k])) && st == Elems(vs)
    {
      var val := NormalizeValue(cells[k]);
      NormalizePrefixStep(before, cells, k);
      UniqueStep(before + NormalizeAll(cells[..k]), st, val);
      if val !in st {
        st := st + {val};
        vs := vs + [val];
      }
    }
    assert cells[..|cells|] == cells;
    seen', values' := seen[col := st], values[col := vs];
  }

  lemma ColumnStep(columns: seq<string>, chunks: seq<Chunk>, i: nat, j: nat,
                   seen: map<string, set<string>>, values: map<string, seq<string>>,
                   seen': map<string, set<string>>, values': map<string, seq<string>>)
    requires NoDuplicates(columns) && j < |columns| && i < |chunks|
    requires forall t :: 0 <= t < j ==> Represents(seen, values, columns[t], ColumnStream(chunks[..i + 1], columns[t]))
    requires forall t :: j <= t < |columns| ==> Represents(seen, values, columns[t], ColumnStream(chunks[..i], columns[t]))
    requires Represents(seen', values', columns[j], ColumnStream(chunks[..i + 1], columns[j]))
    requires seen' == seen[columns[j] := seen'[columns[j]]] && values' == values[columns[j] := values'[columns[j]]]
    ensures seen'.Keys == seen.Keys && values'.Keys == values.Keys
    ensures forall t :: 0 <= t < j + 1 ==> Represents(seen', values', columns[t], ColumnStream(chunks[..i + 1], columns[t]))
    ensures forall t :: j + 1 <= t < |columns| ==> Represents(seen', values', columns[t], ColumnStream(chunks[..i], columns[t]))
  {
    var col := columns[j];
    assert col in seen && col in values;
    forall t | 0 <= t < |columns| && t != j
      ensures seen'[columns[t]] == seen[columns[t]] && values'[columns[t]] == values[columns[t]]
    {
      assert columns[t] != col;
    }
  }

  /** The state after reading `chunks`: for every declared column, `values` and `seen` represent its stream. */
  ghost predicate Collected(seen: map<string, set<string>>, values: map<string, seq<string>>, columns: seq<string>, chunks: seq<Chunk>)
  {
    && seen.Keys == values.Keys == Elems(columns)
    && forall t :: 0 <= t < |columns| ==> Represents(seen, values, columns[t], ColumnStream(chunks, columns[t]))
  }

  /** One chunk: every declared column's cells pass through `CollectColumn`. */
  method CollectChunk(seen: map<string, set<string>>, values: map<string, seq<string>>, columns: seq<string>,
                      chunks: seq<Chunk>, i: nat)
    returns (seen': map<string, set<string>>, values': map<string, seq<string>>)
    requires NoDuplicates(columns) && i < |chunks|
    requires Collected(seen, values, columns, chunks[..i])
    ensures Collected(seen', values', columns, chunks[..i + 1])
  {
    var chunk := FillMissingColumns(chunks[i], columns);
    seen', values' := seen, values;
    for j := 0 to |columns|
      invariant seen'.Keys == values'.Keys == Elems(columns)
      invariant forall t :: 0 <= t < j ==> Represents(seen', values', columns[t], ColumnStream(chunks[..i + 1], columns[t]))
      invariant forall t :: j <= t < |columns| ==> Represents(seen', values', columns[t], ColumnStream(chunks[..i], columns[t]))
    {
      var col := columns[j];
      assert col in chunk.columns;
      ColumnStreamStep(chunks, i, col);
      var s2, v2 := CollectColumn(seen', values', col, chunk.columns[col], ColumnStream(chunks[..i], col));
      ColumnStep(columns, chunks, i, j, seen', values', s2, v2);
      seen', values' := s2, v2;
    }
  }

  /**
   * `unique_values_per_column`: streams the chunks and keeps, per column, the
   * values met for the first time; also counts the rows processed.
   */
  method UniqueValuesPerColumn(columns: seq<string>, chunks: seq<Chunk>)
    returns (values: map<string, seq<string>>, processed: nat)
    requires NoDuplicates(columns)
    ensures values.Keys == Elems(columns)
    ensures forall c :: c in values ==> values[c] == Uniques(ColumnStream(chunks, c))
    ensures processed == TotalRows(chunks)
  {
    var seen: map<string, set<string>> := map c | c in columns :: {};
    values := map c | c in columns :: [];
    processed := 0;
    CollectedInitially(columns);
    assert chunks[..0] == [];
    for i := 0 to |chunks|
      invariant Collected(seen, values, columns, chunks[..i])
      invariant processed == TotalRows(chunks[..i])
    {
      seen, values := CollectChunk(seen, values, columns, chunks, i);
      TotalRowsStep(chunks, i);
      processed := processed + chunks[i].rows;
    }
    CollectedValues(seen, values, columns, chunks, processed);
  }

  lemma CollectedInitially(columns: seq<string>)
    ensures Collected(map c | c in columns :: {}, map c | c in columns :: [], columns, [])
  {
  }

  lemma CollectedValues(seen: map<string, set<string>>, values: map<string, seq<string>>, columns: seq<string>,
                        chunks: seq<Chunk>, processed: nat)
    requires Collected(seen, values, columns, chunks[..|chunks|])
    requires processed == TotalRows(chunks[..|chunks|])
    ensures values.Keys == Elems(columns)
    ensures forall c :: c in values ==> values[c] == Uniques(ColumnStream(chunks, c))
    ensures processed == TotalRows(chunks)
  {
    assert chunks[..|chunks|] == chunks;
    forall c | c in values ensures values[c] == Uniques(ColumnStream(chunks, c)) {
      var t :| 0 <= t < |columns| && columns[t] == c;
    }
  }

  /** Each column's stream has one value per row read. */
  lemma {:induction false} ColumnStreamLength(chunks: seq<Chunk>, c: string)
    requires forall i :: 0 <= i < |chunks| ==> WellFormed(chunks[i])
    ensures |ColumnStream(chunks, c)| == TotalRows(chunks)
  {
    if chunks != [] {
      ColumnStreamLength(chunks[..|chunks| - 1], c);
    }
  }

  /** The distinct values of a column are the values it holds, each once, at most one per row. */
  lemma UniqueValuesFacts(chunks: seq<Chunk>, c: string)
    requires forall i :: 0 <= i < |chunks| ==> WellFormed(chunks[i])
    ensures NoDuplicates(Uniques(ColumnStream(chunks, c)))
    ensures Elems(Uniques(ColumnStream(chunks, c))) == Elems(ColumnStream(chunks, c))
    ensures |Uniques(ColumnStream(chunks, c))| <= TotalRows(chunks)
  {
    UniquesNoDuplicates(ColumnStream(chunks, c));
    UniquesSameElements(ColumnStream(chunks, c));
    UniquesLength(ColumnStream(chunks, c));
    ColumnStreamLength(chunks, c);
  }

  lemma {:induction false} ColumnStreamContains(chunks: seq<Chunk>, i: nat, c: string, k: nat)
    requires i < |chunks| && k < |NormalizeAll(ColumnCells(chunks[i], c))|
    ensures NormalizeAll(ColumnCells(chunks[i], c))[k] in ColumnStream(chunks, c)
  {
    var n := |chunks| - 1;
    var front := chunks[..n];
    var head := ColumnStream(front, c);
    var tail := NormalizeAll(ColumnCells(chunks[n], c));
    var x := NormalizeAll(ColumnCells(chunks[i], c))[k];
    assert ColumnStream(chunks, c) == head + tail;
    if i < n {
      assert front[i] == chunks[i];
      ColumnStreamContains(front, i, c, k);
      InConcat(head, tail, x);
    } else {
      assert tail[k] == x;
      InConcatRight(head, tail, x);
    }
  }

  lemma InConcat<T>(a: seq<T>, b: seq<T>, x: T)
    requires x in a
    ensures x in a + b
  {
  }

  lemma InConcatRight<T>(a: seq<T>, b: seq<T>, x: T)
    requires x in b
    ensures x in a + b
  {
    var k :| 0 <= k < |b| && b[k] == x;
    assert (a + b)[|a| + k] == x;
  }

  /** A column missing from a non-empty chunk contributes "" to that column, and only once. */
  lemma MissingColumnGivesEmpty(chunks: seq<Chunk>, i: nat, c: string)
    requires i < |chunks| && c !in chunks[i].columns && chunks[i].rows > 0
    ensures "" in Uniques(ColumnStream(chunks, c))
    ensures Count(Uniques(ColumnStream(chunks, c)), "") == 1
  {
    ColumnStreamContains(chunks, i, c, 0);
    NormalizeAllAt(ColumnCells(chunks[i], c), 0);
    UniquesSameElements(ColumnStream(chunks, c));
    UniquesNoDuplicates(ColumnStream(chunks, c));
    CountOfDistinct(Uniques(ColumnStream(chunks, c)), "");
  }

  lemma {:induction false} CountOfDistinct(s: seq<string>, x: string)
    requires NoDuplicates(s) && x in s
    ensures Count(s, x) == 1
  {
    var p := s[..|s| - 1];
    if s[|s| - 1] == x {
      assert x !in p;
      CountAbsent(p, x);
    } else {
      CountOfDistinct(p, x);
    }
  }

  lemma {:induction false} CountAbsent(s: seq<string>, x: string)
    requires x !in s
    ensures Count(s, x) == 0
  {
    if s != [] {
      CountAbsent(s[..|s| - 1], x);
    }
  }

  // ---- Writing the rectangle ----

  /** `max(len(values[c]) for c in columns)`, 0 for no columns. */
  function MaxLength(values: map<string, seq<string>>, columns: seq<string>): (m: nat)
    requires forall t :: 0 <= t < |columns| ==> columns[t] in values
    ensures forall t :: 0 <= t < |columns| ==> |values[columns[t]]| <= m
    ensures columns == [] ==> m == 0
    ensures columns != [] ==> exists t :: 0 <= t < |columns| && |values[columns[t]]| == m
  {
    if columns == [] then 0
    else
      var rest := MaxLength(values, columns[..|columns| - 1]);
      var last := |values[columns[|columns| - 1]]|;
      if last > rest then last else rest
  }

  /** `write_unique_values_csv`'s table: every column padded with "" to the longest length. */
  method PadColumns(values: map<string, seq<string>>, columns: seq<string>) returns (data: map<string, seq<string>>)
    requires forall t :: 0 <= t < |columns| ==> columns[t] in values
    ensures data.Keys == Elems(columns)
    ensures forall c :: c in data ==> c in values && |data[c]| == MaxLength(values, columns) >= |values[c]|
    ensures forall c :: c in data ==> data[c][..|values[c]|] == values[c]
    ensures forall c, k :: c in data && |values[c]| <= k < |data[c]| ==> data[c][k] == ""
  {
    var maxLen := MaxLength(values, columns);
    data := map[];
    for j := 0 to |columns|
      invariant data.Keys == Elems(columns[..j])
      invariant forall c :: c in data ==> c in values && |values[c]| <= maxLen
      invariant forall c :: c in data ==> |data[c]| == maxLen && data[c][..|values[c]|] == values[c]
      invariant forall c, k :: c in data && |values[c]| <= k < |data[c]| ==> data[c][k] == ""
    {
      assert columns[..j + 1] == columns[..j] + [columns[j]];
      var colVals := values[columns[j]];
      if |colVals| < maxLen {
        colVals := colVals + seq(maxLen - |colVals|, _ => "");
      }
      data := data[columns[j] := colVals];
    }
    assert columns[..|columns|] == columns;
  }

  // ---- Delimiter fallback ----

  /** `max(counts, key=counts.get)`: the first index holding the largest count. */
  function BestIndex(counts: seq<nat>): (b: nat)
    requires |counts| > 0
    ensures b < |counts|
    ensures forall i :: 0 <= i < |counts| ==> counts[i] <= counts[b]
    ensures forall i :: 0 <= i < b ==> counts[i] < counts[b]
  {
    if |counts| == 1 then 0
    else
      var p := BestIndex(counts[..|counts| - 1]);
      if counts[|counts| - 1] > counts[p] then |counts| - 1 else p
  }

  function CandidateCounts(sample: string): (counts: seq<nat>)
    ensures |counts| == |DelimiterCandidates|
    ensures forall i :: 0 <= i < |counts| ==> counts[i] == Count(sample, DelimiterCandidates[i])
  {
    seq(|DelimiterCandidates|, i requires 0 <= i < |DelimiterCandidates| => Count(sample, DelimiterCandidates[i]))
  }

  /** The count-based fallback: the most frequent candidate, ties to the earlier one; "," when none occurs. */
  function FallbackDelimiter(sample: string): (d: char)
    ensures (forall i :: 0 <= i < |DelimiterCandidates| ==> Count(sample, DelimiterCandidates[i]) == 0) ==> d == ','
    ensures (exists i :: 0 <= i < |DelimiterCandidates| && Count(sample, DelimiterCandidates[i]) > 0) ==>
              exists b :: 0 <= b < |DelimiterCandidates| && d == DelimiterCandidates[b]
                && Count(sample, d) > 0
                && (forall i :: 0 <= i < |DelimiterCandidates| ==> Count(sample, DelimiterCandidates[i]) <= Count(sample, d))
                && (forall i :: 0 <= i < b ==> Count(sample, DelimiterCandidates[i]) < Count(sample, d))
  {
    var counts := CandidateCounts(sample);
    var b := BestIndex(counts);
    if counts[b] > 0 then DelimiterCandidates[b] else ','
  }

  /**
   * `sniff_delimiter`: the sniffer's delimiter when it succeeds with a non-empty one
   * (None stands for a sniffer exception), else the count fallback.
   */
  function SniffDelimiter(sniffed: Option<string>, sample: string): (d: string)
    ensures sniffed.Some? && sniffed.value != "" ==> d == sniffed.value
    ensures !(sniffed.Some? && sniffed.value != "") ==> d == [FallbackDelimiter(sample)]
  {
    if sniffed.Some? && sniffed.value != "" then sniffed.value else [FallbackDelimiter(sample)]
  }

  // ---- Encoding trial ----

  /** The first `n` bytes, what `f.read(n)` returns. */
  function Sample(file: seq<Byte>, n: nat): (s: seq<Byte>)
    ensures StartsWith(file, s)
    ensures |s| == if |file| < n then |file| else n
  {
    if |file| < n then file else file[..n]
  }

  /** Whether `sample.decode(e)` succeeds, for the encodings the extractor tries. */
  predicate TrialDecodes(e: Encoding, b: seq<Byte>)
  {
    match e
    case Utf8Sig => ValidUtf8(if StartsWith(b, Utf8Bom) then b[3..] else b)
    case Utf8 => ValidUtf8(b)
    case Cp1252 => Cp1252Decodable(b)
    case Latin1 => true
    case _ => false
  }

  /** utf-8-sig accepts exactly what utf-8 accepts: a leading BOM is itself valid UTF-8. */
  lemma Utf8SigAcceptsUtf8(b: seq<Byte>)
    ensures TrialDecodes(Utf8Sig, b) <==> ValidUtf8(b)
  {
    if StartsWith(b, Utf8Bom) {
      assert b == Utf8Bom + b[3..];
      Utf8BomPrefix(b[3..]);
    }
  }

  /**
   * `detect_encoding`: the first candidate whose trial decoding of the sample
   * succeeds. utf-8-sig comes first and accepts every UTF-8 sample, so "utf-8"
   * is never the answer.
   */
  method DetectEncoding(file: seq<Byte>) returns (enc: Encoding)
    ensures var s := Sample(file, EncodingSampleBytes);
            && (enc == Utf8Sig <==> ValidUtf8(s))
            && (enc == Cp1252 <==> !ValidUtf8(s) && Cp1252Decodable(s))
            && (enc == Latin1 <==> !ValidUtf8(s) && !Cp1252Decodable(s))
  {
    var sample := Sample(file, EncodingSampleBytes);
    Utf8SigAcceptsUtf8(sample);
    // latin-1 decodes every byte string, so the search always stops at the last
    // candidate at the latest and the trailing `return "latin-1"` is unreachable.
    var i := 0;
    while i < |EncodingCandidates| - 1 && !TrialDecodes(EncodingCandidates[i], sample)
      invariant 0 <= i <= |EncodingCandidates| - 1
      invariant forall j :: 0 <= j < i ==> !TrialDecodes(EncodingCandidates[j], sample)
    {
      i := i + 1;
    }
    enc := EncodingCandidates[i];
    if i > 0 {
      assert !TrialDecodes(EncodingCandidates[0], sample);
    }
    if i > 2 {
      assert !TrialDecodes(EncodingCandidates[2], sample);
    }
  }

  /** A UTF-8 file cut inside a character at the sample boundary is judged by its sample alone. */
  lemma SampleCutsCharacter()
    ensures !ValidUtf8([0xC3]) && ValidUtf8([0xC3, 0xA9])
  {
    assert [0xC3, 0xA9][2..] == [];
  }

  // ---- Newline pre-count ----

  /** `fast_count_rows`: the number of newline bytes, read block by block. */
  method FastCountRows(file: seq<Byte>, blockSize: nat) returns (total: nat)
    requires blockSize > 0
    ensures total == Count(file, 10)
  {
    total := 0;
    var pos := 0;
    while true
      invariant 0 <= pos <= |file|
      invariant total == Count(file[..pos], 10)
      decreases |file| - pos
    {
      var end := if pos + blockSize < |file| then pos + blockSize else |file|;
      var chunk := file[pos..end];
      if chunk == [] {
        break;
      }
      assert file[..end] == file[..pos] + chunk;
      CountAppend(file[..pos], chunk, 10);
      total := total + Count(chunk, 10);
      pos := end;
    }
    assert pos == |file|;
    assert file[..pos] == file;
  }
}
