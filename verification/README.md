# Geospatial and CSV batch scripts, modelled in Dafny

The repository is a set of standalone Python batch scripts for geospatial and tabular
data wrangling. The raster, vector and CSV libraries do the heavy work. This project
models the scripts' own decision and bookkeeping logic around those library calls,
and proves what that logic promises:

- **CSV unique-values extractor** (`csv_uniques.dfy`):
  - cell normalisation;
  - per-column distinct values in order of first appearance, kept with a `seen` set
    beside a `values` list and updated in nested loops over the chunks;
  - columns missing from a chunk filled with `""`;
  - padding of the columns into a rectangle;
  - the encoding trial, the delimiter count fallback and the newline pre-count.
- **CSV preview** (`csv_preview.dfy`, `encodings.dfy`):
  - encoding detection: byte-order marks in fixed priority, then strict UTF-8
    (RFC 3629, section 4), then cp1252, then latin-1;
  - the sniffing fallback policy;
  - the row-budget copy loop.
- **Shared path and text rules** (`paths.dfy`, `text.dfy`):
  - `pathlib` stem and suffixes, `ntpath.splitext`, quote stripping of pasted paths;
  - Python's `strip`, `split`, `lower`, `str(n)` and `int(s)`.
- **Line-number stripper** (`line_numbers.dfy`): the anchored `^\d+\s{2}` strip, the
  encoding search and the line rewrite loop.
- **Mendeley duplicate-PDF remover** (`duplicate_pdfs.dfy`, over the generic
  dictionary-of-lists grouping in `grouping.dfy`): the PDF filter, the truncated-name
  key, and keep-first/delete-rest, with failed deletions reported and skipped.
- **Raster time-series bookkeeping**:
  - `seasons.dfy`, `ceres_seasonal.dfy`, `ceres_period_season.dfy`,
    `ceres_period_annual.dfy`, `year_filter.dfy` and `masked_mean.dfy`: the CERES
    seasonal, period-by-season and period means;
  - `daymet_annual.dfy`: the Daymet annual mean, with its file-count divisor and
    last-mask nodata;
  - `daymet_annual_trend.dfy`, `daymet_seasonal_trend.dfy` and `pixel_trend.dfy`: the
    two Mann-Kendall drivers (selection, sorting, NaN substitution, the pixel
    skip/test loop);
  - `tera_aqua.dfy`: Aqua/Terra copy and averaging decisions;
  - `era5_daily.dfy`: ERA5 hour windows and synthetic day labels.
- **Wildfire-susceptibility binning** (`susceptibility.dfy`): five classes, counts and
  percentages per province polygon.
- **Point-to-polygon matching** (`lake_matching.dfy`):
  - case-insensitive field lookup;
  - a primary and a fallback first-match search, with an abstract `intersects`;
  - result and matched/unmatched accounting.

Abstractions:

- A raster band is a row-major `seq<real>` with a nodata value.
- NaN is `None` where the scripts test for it.
- Each library call is a function parameter of the operation that makes it: reading a
  raster, masking, the Mann-Kendall test, `Intersects`, coordinate transformation,
  the CSV sniffer and whether a deletion succeeds.
- Copies and deletions are returned as plans rather than performed.
- A Python exception that ends a script is a `None` or `Failure` result. An item whose
  key computation raises is `Keyed.Abort` in the grouping model.

Where the scripts' documentation (their docstrings) and their code disagree, the model
follows the code, with one exception, the output name of the CSV preview:

- **No-header preview.** In csv_preview.py the first row is always written, and
  without a header it counts as a data row. A preview without a header therefore has
  `max(1, min(N, M))` rows, not `min(N, M)` (`CsvPreview.PreviewLength`,
  `CsvPreview.PreviewBudget`).
- **NaN cells.** The docstring of `normalize_value` says NaN becomes `""`. The code
  gives `str(nan)`, which is `"nan"` (`CsvUniques.NormalizeNaN`).
- **Output names.** The docstring of `build_output_path` puts the tag before the full
  extension chain. For a name with two or more extensions the code repeats the inner
  extensions instead. `Paths.OutputNameAsWritten` is the name as the code builds it,
  and `Paths.OutputName` is the name the docstring describes (see Findings).
  `CsvPreview.CreatePreview` uses the documented name, as listed under Left out.

## Model

| member | source | states |
|---|---|---|
| Text.Strip | csv_uniques.py:100 | `str.strip()`: the result has no white space at either end, is never longer than the input, and is `""` for all-white-space input |
| Text.StripSplits | csv_uniques.py:100 | the input is white space, then the stripped result, then white space |
| Text.StripPadded | csv_uniques.py:260 | stripping a trimmed string surrounded by white space gives exactly that string |
| Text.StripIdempotent | csv_uniques.py:100 | stripping twice is stripping once |
| Text.Lower | extract_polygon_attribute_from_point.py:40 | `lower()` keeps the length and lowers character by character |
| Text.Split | nasa_neo_data_analysis/seasonal_mean_from_daily_data.py:46 | `split(sep)` gives at least one field and no field holds the separator |
| Text.JoinSplit | nasa_neo_data_analysis/seasonal_mean_from_daily_data.py:46 | joining the fields of a split with the separator gives the string back |
| Text.SplitJoin | nasa_neo_data_analysis/seasonal_mean_from_daily_data.py:46 | splitting a join of separator-free parts gives the parts back |
| Text.NatToString | era5_data_analysis/nc_to_tif.py:47 | `str(n)` is all digits with no leading zero, one digit exactly below 10 |
| Text.Format02 | era5_data_analysis/nc_to_tif.py:47 | `f"{n:02d}"` is at least two digits, exactly two below 100 |
| Text.IntToStringAvoids | nasa_neo_data_analysis/seasonal_mean_from_daily_data.py:55 | `str(n)` holds no character other than digits and a minus sign |
| Text.IntToStringRoundTrip | nasa_neo_data_analysis/seasonal_mean_from_daily_data.py:55 | `int(str(n)) == n` for every integer |
| Text.ParseInt | daymet_data_analysis/seasonal_mean_mk_test.py:53 | `int(s)` raises on blank text |
| Text.ParseIntBound | era5_data_analysis/nc_to_tif.py:64 | `int()` of a string of `k` characters lies strictly between `-10^(k-1)` and `10^k` |
| Text.IntToString | nasa_neo_data_analysis/seasonal_mean_from_daily_data.py:55 | `str(n)` is never empty and starts with a minus sign exactly when `n` is negative |
| Text.ParseUnsigned | daymet_data_analysis/seasonal_mean_mk_test.py:53 | `int()` of digits, with single underscores between groups, is their value |
| Text.ParseNegative | daymet_data_analysis/seasonal_mean_mk_test.py:53 | `int()` of a minus sign followed by such digits is the negated value |
| Sequences.UniquesSnoc | csv_uniques.py:211-213 | appending a value to the de-duplicated list adds it exactly when it was not seen before |
| Sequences.UniquesSameElements | csv_uniques.py:208-213 | the distinct values are exactly the values met |
| Sequences.UniquesNoDuplicates | csv_uniques.py:211-213 | the distinct-value list has no repeats |
| Sequences.UniquesLength | csv_uniques.py:208-213 | there are never more distinct values than values met |
| Sequences.UniquesFirstOccurrenceOrder | csv_uniques.py:165 | the distinct values come out in the order of their first occurrences |
| Sequences.UniquesOfSeen | csv_uniques.py:211 | values already seen change nothing |
| Sequences.UniquesIdempotentOnRepeat | csv_uniques.py:208-213 | a column followed by itself has the same distinct values as the column |
| Sequences.UniquesOfDistinct | csv_uniques.py:208-213 | a duplicate-free column is its own distinct-value list |
| Sequences.UniquesExample | csv_uniques.py:208-213 | the column `A, B, A` gives `A, B` |
| Sequences.CountAppend | csv_uniques.py:123 | occurrence counts add up over a concatenation, so block-wise counting is exact |
| Sequences.SortBy | daymet_data_analysis/annual_mean_mk_test.py:43 | `sorted`: the result is ordered and a permutation of the input |
| Sequences.IntLeTotal | daymet_data_analysis/annual_mean_mk_test.py:43 | the integer order is a total preorder |
| Sequences.LexLeTotal | era5_data_analysis/nc_to_tif.py:61 | Python's string order is a total preorder |
| Sequences.LexLeAntisymmetric | era5_data_analysis/nc_to_tif.py:61 | two strings each at most the other are equal |
| Sequences.Filter | daymet_data_analysis/annual_mean_mk_test.py:41 | a comprehension keeps exactly the elements that pass the test |
| Sequences.FilterAppend | daymet_data_analysis/annual_mean_mk_test.py:41 | a comprehension keeps the input order |
| Encodings.ValidUtf8Concat | csv_preview.py:83-87 | joined well-formed UTF-8 strings are well formed |
| Encodings.Utf8BomPrefix | csv_uniques.py:54 | the UTF-8 byte-order mark is one well-formed UTF-8 character |
| Encodings.AsciiIsUtf8 | csv_preview.py:83-87 | ASCII bytes are valid UTF-8 |
| Encodings.AsciiIsCp1252 | csv_preview.py:89-94 | ASCII bytes decode as cp1252 |
| Encodings.TrialWitnesses | csv_preview.py:82-97 | byte 0x93 is cp1252 but not UTF-8; 0x81 is neither; an encoded surrogate is not UTF-8 |
| Paths.LastIndexOf | txt_line_number_removal.py:15 | `rfind`: the last index of the character, or -1 when it does not occur |
| Paths.OutputNameAsWritten | csv_preview.py:51-55 | the name as the code builds it ends with the extension chain (`.csv` when there is none), and the text before the tag is the start of the input name |
| Paths.OutputName | csv_preview.py:51-55 | corrected output name: as long as the input plus the tag (plus `.csv` when there is no extension), ending with the extension chain, with the text before the tag the start of the input name |
| Paths.SuffixesAreSuffix | csv_preview.py:54 | the joined suffixes are the end of the name |
| Paths.OutputNameKeepsChain | csv_preview.py:51-55 | the corrected name keeps the part before the chain and ends with the whole chain |
| Paths.OutputNameRoundTrip | csv_preview.py:51-55 | removing the tag from the corrected name gives the input name back |
| Paths.OutputNameSingleSuffix | csv_uniques.py:248-252 | for a name with one extension, the code as written and the corrected name agree |
| Paths.OutputNameTwoSuffixes | csv_uniques.py:248-252 | for `a.b.c`, the code as written gives `a.b<tag>.b.c` and the corrected name is `a<tag>.b.c` |
| Paths.OutputNameAsWrittenRepeatsSuffix | csv_preview.py:51-55 | for every two-extension name and every tag not starting with a dot, the name as written differs from the corrected name |
| Paths.SplitExt | txt_line_number_removal.py:15 | `splitext`: base and extension concatenate to the path, and the extension is empty or starts with a dot |
| Paths.SplitExtOfExtension | mendeley_duplicate_pdf_remover.py:13 | a name ending in one extension `.x` splits into its base and `.x` |
| Paths.SplitExtLastExtension | txt_line_number_removal.py:15 | the extension holds no further dot and no path separator |
| Paths.TaggedPath | txt_line_number_removal.py:15-16 | the tagged path is as long as the path plus the tag, and an empty tag gives the path back |
| Paths.UnquotePath | csv_uniques.py:260-262 | unquoting never lengthens the path and removes at most the two quote characters beyond the surrounding white space |
| Paths.TaggedPathRoundTrip | txt_line_number_removal.py:15-16 | the tag sits between the base and the extension, and removing it gives the path back |
| Paths.UnquoteQuoted | csv_uniques.py:260-262 | a double-quoted path with white space around it comes back unquoted and whole |
| Paths.UnquoteUnquoted | csv_preview.py:224-226 | a trimmed path without matching outer quotes is unchanged |
| Paths.UnquoteLoneQuote | csv_uniques.py:261-262 | a lone quote character counts as a quoted empty path |
| Grouping.GroupBy | mendeley_duplicate_pdf_remover.py:11-16 | the dictionary-of-lists loop: no result exactly when a key computation raises; otherwise keys in first-met order, each with its items in input order |
| Grouping.GroupStepSeen | nasa_neo_data_analysis/seasonal_mean_from_daily_data.py:59-61 | appending to an existing key's list keeps the grouping exact |
| Grouping.GroupStepNew | nasa_neo_data_analysis/seasonal_mean_from_daily_data.py:59-61 | a new key starts a one-item list at the end of the key order |
| Grouping.GroupStepSkip | nasa_neo_data_analysis/seasonal_mean_from_daily_data.py:49-62 | an item that matches no group changes nothing |
| Grouping.MembersNonEmpty | mendeley_duplicate_pdf_remover.py:16 | a key has a non-empty list exactly when some item is filed under it |
| Grouping.MembersBelong | mendeley_duplicate_pdf_remover.py:16 | every member of a group is an input item filed under that key |
| Grouping.MembersNoDuplicates | mendeley_duplicate_pdf_remover.py:16 | distinct items give groups of distinct items |
| Grouping.MembersAppend | mendeley_duplicate_pdf_remover.py:12-16 | grouping two lists in turn puts the first list's members first |
| Grouping.KeyMet | mendeley_duplicate_pdf_remover.py:16 | a key is grouped exactly when some item has it |
| Grouping.FiledAllKeyed | mendeley_duplicate_pdf_remover.py:12-16 | when every item has a key, every item is filed |
| Grouping.GroupsPartition | mendeley_duplicate_pdf_remover.py:11-16 | the groups together hold every filed item exactly once |
| Grouping.Reached | nasa_neo_data_analysis/tera_aqua_averaging.py:31-34 | the items a loop gets through are a prefix that does not raise, ending just before the first item that raises |
| Grouping.ReachedAt | nasa_neo_data_analysis/tera_aqua_averaging.py:31-34 | the loop gets through exactly the items before the first one that raises |
| Grouping.FirstOfKey | nasa_neo_data_analysis/tera_aqua_averaging.py:35 | right after an item is appended, its key's list has length 1 exactly when no earlier item had that key |
| Grouping.FirstOfKeyLast | nasa_neo_data_analysis/tera_aqua_averaging.py:35 | the same, stated for the last item of a list |
| LineNumbers.DigitRun | txt_line_number_removal.py:19 | the maximal run of digits at the start of a line |
| LineNumbers.StripLineNumber | txt_line_number_removal.py:42 | the result is a suffix of the line, equal to the line exactly when there is no line number |
| LineNumbers.MatchIsDigitRun | txt_line_number_removal.py:19 | a match of `^\d+\s{2}` always spans the whole digit run |
| LineNumbers.StripLineNumberSpec | txt_line_number_removal.py:19 | the pattern matches exactly when the line has a number; a match removes exactly its prefix, and no match leaves the line unchanged |
| LineNumbers.StripOnlyOnce | txt_line_number_removal.py:42 | `"1  2  x"` becomes `"2  x"`, and stripping again gives `"x"`: the strip is not idempotent |
| LineNumbers.StripNewlineCounts | txt_line_number_removal.py:40-42 | `"7 \n"` becomes `""`, because the newline counts as white space |
| LineNumbers.StripNeedsTwoSpaces | txt_line_number_removal.py:19 | `"12 x"`, with one space after the digits, is unchanged |
| LineNumbers.CleanedBounds | txt_line_number_removal.py:40-43 | cleaning never lengthens the text, and text without numbered lines is unchanged |
| LineNumbers.RewriteLines | txt_line_number_removal.py:38-43 | the output is the cleaned lines concatenated in order |
| LineNumbers.ChooseEncoding | txt_line_number_removal.py:22-33 | the chosen encoding is the first candidate whose first-line read succeeds; the error exit happens exactly when none succeeds, so it is never reached when latin-1 is a candidate and its read succeeds (latin-1 decodes every byte sequence) |
| LineNumbers.OutputPath | txt_line_number_removal.py:15-16 | the output path is the base, `_no_line_number`, then the extension; removing the tag gives the input back |
| DuplicatePdfs.PdfFiles | mendeley_duplicate_pdf_remover.py:8 | a file is considered exactly when its lower-case name ends in `.pdf` |
| DuplicatePdfs.PdfFilesAppend | mendeley_duplicate_pdf_remover.py:8 | the filter keeps listing order |
| DuplicatePdfs.GroupKey | mendeley_duplicate_pdf_remover.py:13-15 | the key is a prefix of the name, at most 20 characters shorter than the base |
| DuplicatePdfs.GroupKeyPrefix | mendeley_duplicate_pdf_remover.py:13-15 | the key is a prefix of the name: 20 characters shorter than the base when the base is longer than 20, else the base itself |
| DuplicatePdfs.CopiesShareKey | mendeley_duplicate_pdf_remover.py:10-15 | two copies differing only in a 20-character tail before one extension share a key |
| DuplicatePdfs.Failing | mendeley_duplicate_pdf_remover.py:27-31 | the reported files are exactly the targeted files whose removal raises |
| DuplicatePdfs.FailingAppend | mendeley_duplicate_pdf_remover.py:25-31 | failures are reported in the order the removals were tried |
| DuplicatePdfs.KeepOrDelete | mendeley_duplicate_pdf_remover.py:19-25 | the kept and the targeted files together are the groups' files, each once |
| DuplicatePdfs.FiledPdfs | mendeley_duplicate_pdf_remover.py:12-16 | every considered file gets a key |
| DuplicatePdfs.EveryFileOnce | mendeley_duplicate_pdf_remover.py:11-25 | every considered file is either kept or targeted, exactly once |
| DuplicatePdfs.SingletonsSurvive | mendeley_duplicate_pdf_remover.py:32-34 | a file alone in its group is never targeted |
| DuplicatePdfs.FirstSurvives | mendeley_duplicate_pdf_remover.py:22 | the first file of every group is never targeted |
| DuplicatePdfs.GroupStep | mendeley_duplicate_pdf_remover.py:19-25 | one more group adds its first file to the kept files and the rest to the targets |
| DuplicatePdfs.DeleteRest | mendeley_duplicate_pdf_remover.py:25-31 | removal is tried on every file of `file_list[1:]`, and the failures are recorded without stopping |
| DuplicatePdfs.ProcessGroups | mendeley_duplicate_pdf_remover.py:19-34 | the kept files are each group's first file, the targets are the rest, and the failures are the targets whose removal raises |
| DuplicatePdfs.RemoveDuplicates | mendeley_duplicate_pdf_remover.py:8-34 | the whole script over a listing: the same plan, over the PDF files grouped by key |
| CsvUniques.NormalizeValue | csv_uniques.py:96-101 | `None` gives `""`; otherwise the result is trimmed, and all-white-space text gives `""` |
| CsvUniques.NormalizeIdempotent | csv_uniques.py:96-101 | normalising a normalised value changes nothing |
| CsvUniques.NormalizeNaN | csv_uniques.py:97-100 | a float NaN is not turned into `""` |
| CsvUniques.NormalizeAll | csv_uniques.py:209-210 | one normalised value per cell |
| CsvUniques.FillMissingColumns | csv_uniques.py:204-206 | a declared column missing from a chunk is added as `""` for every row; nothing else changes |
| CsvUniques.RepresentsStep | csv_uniques.py:211-213 | checking `seen` before appending to `values` keeps the set equal to the list's elements, with the list the distinct values so far |
| CsvUniques.UniqueStep | csv_uniques.py:211-213 | one value: the list and its set gain it exactly on its first occurrence |
| CsvUniques.CollectColumn | csv_uniques.py:209-213 | the inner cell loop extends one column's list by the new distinct values and leaves the other columns alone |
| CsvUniques.CollectChunk | csv_uniques.py:202-213 | one chunk: every declared column's list becomes the distinct values of its stream so far |
| CsvUniques.UniqueValuesPerColumn | csv_uniques.py:157-225 | every declared column maps to the distinct normalised values of all its cells, in first-appearance order; `processed` is the number of rows read |
| CsvUniques.CollectedInitially | csv_uniques.py:168-169 | the empty sets and lists represent the empty stream |
| CsvUniques.ColumnStreamLength | csv_uniques.py:208-217 | each column's stream has one value per row read |
| CsvUniques.UniqueValuesFacts | csv_uniques.py:208-213 | a column's list has no repeats, holds exactly the values in the column, and is no longer than the number of rows |
| CsvUniques.MissingColumnGivesEmpty | csv_uniques.py:204-206 | a column missing from a non-empty chunk contributes `""` to its list, exactly once |
| CsvUniques.MaxLength | csv_uniques.py:236 | `max_len` is the length of the longest column's list, and 0 for no columns |
| CsvUniques.PadColumns | csv_uniques.py:236-242 | every column is padded to `max_len`; the original list is a prefix and the padding is all `""` |
| CsvUniques.BestIndex | csv_uniques.py:92 | `max(counts, key=counts.get)` is the first candidate with the largest count |
| CsvUniques.CandidateCounts | csv_uniques.py:91 | one count per delimiter candidate, in order |
| CsvUniques.FallbackDelimiter | csv_uniques.py:91-93 | the most frequent candidate, with ties going to the earlier one; `,` when no candidate occurs |
| CsvUniques.SniffDelimiter | csv_uniques.py:83-93 | the sniffer's delimiter when it succeeds with a non-empty one, else the count fallback |
| CsvUniques.Sample | csv_uniques.py:62-63 | `f.read(n)` is the first `min(n, size)` bytes |
| CsvUniques.Utf8SigAcceptsUtf8 | csv_uniques.py:54 | the `utf-8-sig` trial succeeds exactly when the `utf-8` trial does |
| CsvUniques.DetectEncoding | csv_uniques.py:60-70 | `utf-8-sig` exactly for valid UTF-8, else `cp1252` when that decodes, else `latin-1`, so `utf-8` is never returned |
| CsvUniques.SampleCutsCharacter | csv_uniques.py:62-63 | a character cut at the sample boundary is invalid on its own, although it is whole in the file |
| CsvUniques.FastCountRows | csv_uniques.py:104-127 | the block loop counts exactly the newline bytes of the file, whatever the block size |
| CsvPreview.DetectEncoding | csv_preview.py:58-97 | without a mark the answer is utf-8, cp1252 or latin-1; utf-8 only for valid UTF-8; latin-1 only when neither utf-8 nor cp1252 decodes |
| CsvPreview.SamplePrefix | csv_preview.py:67-71 | a mark of at most four bytes starts the sample exactly when it starts the file |
| CsvPreview.DetectEncodingMarks | csv_preview.py:70-80 | each byte-order mark gives its encoding; the UTF-32 LE mark wins over the UTF-16 LE mark it starts with |
| CsvPreview.DetectEncodingWithoutMark | csv_preview.py:82-97 | without a mark: `utf-8` exactly for valid UTF-8, else `cp1252` when it decodes, else `latin-1` |
| CsvPreview.DetectEncodingEmpty | csv_preview.py:82-87 | an empty file reads as `utf-8` |
| CsvPreview.DetectedEncodingDecodes | csv_preview.py:82-97 | the mark-free answer always decodes the sample it was chosen for |
| CsvPreview.SniffDialectAndHeader | csv_preview.py:100-118 | a failing sniff gives `(excel, True)`; a failing `has_header` gives `True` |
| CsvPreview.PreviewLength | csv_preview.py:173-196 | the preview never has more rows than the input |
| CsvPreview.CopyRows | csv_preview.py:165-196 | the loop writes the first `PreviewLength` rows; `rows_written` excludes the header |
| CsvPreview.CreatePreview | csv_preview.py:129-219 | a missing input is an error; an empty input writes nothing; otherwise the rows written are the budgeted prefix, and the bar total is lowered to the rows reached; the output is named with the documented `Paths.OutputName` |
| CsvPreview.PreviewIsPrefix | csv_preview.py:168-196 | the preview is an unmodified, in-order prefix of the input that always keeps the first row |
| CsvPreview.PreviewBudget | csv_preview.py:181-196 | with a header, at most `max(N, 0)` data rows; without one, at least 1 and at most `N` for `N >= 1`; exactly the budget when the input has enough rows |
| Seasons.SeasonOfMonth | nasa_neo_data_analysis/seasonal_mean_from_daily_data.py:49-50 | the season found lists the month, and no season is found exactly when no season lists it |
| Seasons.SeasonOfMonthSpec | nasa_neo_data_analysis/seasonal_mean_from_daily_data.py:35-40 | a month belongs to the season that lists it and to no other |
| Seasons.WinterMonths | nasa_neo_data_analysis/seasonal_mean_from_daily_data.py:39 | `12`, `01` and `02` are winter |
| Seasons.SeasonOfMonthTotal | nasa_neo_data_analysis/seasonal_mean_from_daily_data.py:49-50 | exactly the twelve two-digit month strings are grouped |
| Seasons.NamesDistinct | nasa_neo_data_analysis/seasonal_mean_from_daily_data.py:35-40 | the season names are distinct |
| Seasons.DateFields | nasa_neo_data_analysis/seasonal_mean_from_daily_data.py:46-48 | the year string read from the fourth `_` field holds neither `_` nor `-` |
| Seasons.CeresYear | nasa_neo_data_analysis/period_mean_from_annual_mean.py:43 | a file is never passed over: a name without a fourth `_` field raises |
| Seasons.CeresYearOfDate | nasa_neo_data_analysis/period_mean_from_seasonal_mean_by_season.py:51-52 | the year the period filter reads is that year string, parsed |
| CeresSeasonal.SeasonKey | nasa_neo_data_analysis/seasonal_mean_from_daily_data.py:49-58 | a file is passed over exactly when its month is in no season, and raises only when its year does not read as an integer |
| CeresSeasonal.FileKey | nasa_neo_data_analysis/seasonal_mean_from_daily_data.py:45-58 | a name without the date field raises; a file is passed over exactly when its date reads and its month is in no season |
| CeresSeasonal.DecemberKey | nasa_neo_data_analysis/seasonal_mean_from_daily_data.py:51-58 | December of year Y goes to `Y_winter` |
| CeresSeasonal.ShiftedKey | nasa_neo_data_analysis/seasonal_mean_from_daily_data.py:53-55 | January and February of a year that reads as Y go to `str(Y-1)_winter` |
| CeresSeasonal.JanuaryFebruaryKey | nasa_neo_data_analysis/seasonal_mean_from_daily_data.py:53-58 | January and February of year Y go to `(Y-1)_winter` |
| CeresSeasonal.OneWinter | nasa_neo_data_analysis/seasonal_mean_from_daily_data.py:51-58 | a December and the following January and February share one group |
| CeresSeasonal.OtherSeasonsKeepYear | nasa_neo_data_analysis/seasonal_mean_from_daily_data.py:56-58 | spring, summer and autumn keep the year as written |
| CeresSeasonal.UnknownMonthSkipped | nasa_neo_data_analysis/seasonal_mean_from_daily_data.py:49-50 | a month no season lists joins no group |
| CeresSeasonal.KeyShape | nasa_neo_data_analysis/seasonal_mean_from_daily_data.py:58 | every key is a year without `_`, then `_`, then a season name |
| CeresSeasonal.KeyUnpacks | nasa_neo_data_analysis/seasonal_mean_from_daily_data.py:102 | such a key splits in two and names `ceres_solar_insolation_{year}_{season}.tif` |
| CeresSeasonal.MetKey | nasa_neo_data_analysis/seasonal_mean_from_daily_data.py:59-61 | a grouped key has a non-empty file list |
| CeresSeasonal.MetKeysNamed | nasa_neo_data_analysis/seasonal_mean_from_daily_data.py:65-66 | the `year, season = key.split('_')` unpacking never fails |
| CeresSeasonal.WriteGroup | nasa_neo_data_analysis/seasonal_mean_from_daily_data.py:74-103 | one group's output: its masked mean, named after the key |
| CeresSeasonal.WriteGroups | nasa_neo_data_analysis/seasonal_mean_from_daily_data.py:65-103 | one output per group, in first-met key order |
| CeresSeasonal.SeasonalMeans | nasa_neo_data_analysis/seasonal_mean_from_daily_data.py:43-103 | fails exactly when a file name raises during grouping; otherwise writes one mean raster per `year_season` group |
| CeresPeriodSeason.MonthSeason | nasa_neo_data_analysis/period_mean_from_seasonal_mean_by_season.py:59-66 | raises exactly when the name has no date field; a file filed under a season has one of that season's months |
| CeresPeriodSeason.MonthSeasonSpec | nasa_neo_data_analysis/period_mean_from_seasonal_mean_by_season.py:63-66 | a file goes to a season exactly when its month is one that season lists |
| CeresPeriodSeason.NoYearShift | nasa_neo_data_analysis/period_mean_from_seasonal_mean_by_season.py:59-66 | files with the same month go to the same season, whatever their years |
| CeresPeriodSeason.OneSeasonPerFile | nasa_neo_data_analysis/period_mean_from_seasonal_mean_by_season.py:63-66 | no file is in two season lists |
| CeresPeriodSeason.FileNamesDistinct | nasa_neo_data_analysis/period_mean_from_seasonal_mean_by_season.py:105 | different seasons of one period get different file names |
| CeresPeriodSeason.SeasonWrittenIn | nasa_neo_data_analysis/period_mean_from_seasonal_mean_by_season.py:69-71 | every season with files is written |
| CeresPeriodSeason.SeasonOutputsFrom | nasa_neo_data_analysis/period_mean_from_seasonal_mean_by_season.py:69-71 | every file written belongs to a season with files |
| CeresPeriodSeason.SeasonOutputsLength | nasa_neo_data_analysis/period_mean_from_seasonal_mean_by_season.py:69 | at most one output per season |
| CeresPeriodSeason.WriteSeason | nasa_neo_data_analysis/period_mean_from_seasonal_mean_by_season.py:73-106 | one season's output: its masked mean, named after the season and the period |
| CeresPeriodSeason.GroupBySeason | nasa_neo_data_analysis/period_mean_from_seasonal_mean_by_season.py:57-66 | all four seasons are present from the start, each holding its files in order; fails exactly when a name raises |
| CeresPeriodSeason.PeriodSeasonMeans | nasa_neo_data_analysis/period_mean_from_seasonal_mean_by_season.py:47-106 | fails exactly when a year or month field raises; otherwise one mean per season with files, in dictionary order |
| CeresPeriodAnnual.PeriodMean | nasa_neo_data_analysis/period_mean_from_annual_mean.py:40-80 | fails on an unreadable year, or when no file is in the period; otherwise the masked mean over every kept file |
| CeresPeriodAnnual.PeriodFiles | nasa_neo_data_analysis/period_mean_from_annual_mean.py:41-45 | a file is kept exactly when its year reads and lies in `[start, end]` |
| YearFilter.Kept | nasa_neo_data_analysis/period_mean_from_annual_mean.py:41-45 | the kept files are never more than the files listed, and each of them is a listed file |
| YearFilter.KeptFails | nasa_neo_data_analysis/period_mean_from_annual_mean.py:43 | the filter fails exactly when some year raises |
| YearFilter.KeptMembers | nasa_neo_data_analysis/period_mean_from_annual_mean.py:43-45 | a file is kept exactly when its year reads and lies in the range |
| YearFilter.KeptAppend | nasa_neo_data_analysis/period_mean_from_annual_mean.py:41-45 | the filter keeps listing order |
| YearFilter.FilterByYear | nasa_neo_data_analysis/period_mean_from_annual_mean.py:41-45 | the append loop computes the filter |
| MaskedMean.ValidCount | nasa_neo_data_analysis/seasonal_mean_from_daily_data.py:83 | a pixel's count is at most the number of files |
| MaskedMean.CountSumSnoc | nasa_neo_data_analysis/seasonal_mean_from_daily_data.py:81-83 | one more file adds 1 to the count and its value to the sum exactly where the pixel is valid |
| MaskedMean.Accumulate | nasa_neo_data_analysis/seasonal_mean_from_daily_data.py:81-83 | the in-place masked update keeps `data_sum` and `data_count` equal to the valid sums and counts |
| MaskedMean.Readings | nasa_neo_data_analysis/seasonal_mean_from_daily_data.py:74-75 | one raster per file, in order |
| MaskedMean.PixelMean | nasa_neo_data_analysis/seasonal_mean_from_daily_data.py:86-89 | where some file is valid, the cell times the valid count is the valid sum; where none is, the cell is the last file's nodata |
| MaskedMean.MeanRaster | nasa_neo_data_analysis/seasonal_mean_from_daily_data.py:70-89 | one cell per pixel, each the masked mean of that pixel |
| MaskedMean.Mean | nasa_neo_data_analysis/seasonal_mean_from_daily_data.py:70-89 | the accumulation loop and division give `sum/count` where the count is positive and nodata elsewhere |
| MaskedMean.MeanBounds | nasa_neo_data_analysis/seasonal_mean_from_daily_data.py:86-88 | a mean lies between the smallest and largest valid values it averages |
| MaskedMean.NoValidMeansZeroCount | nasa_neo_data_analysis/seasonal_mean_from_daily_data.py:86-89 | the count is 0 exactly where no file is valid |
| MaskedMean.AllValidCount | nasa_neo_data_analysis/seasonal_mean_from_daily_data.py:81-83 | a pixel valid in every file is counted once per file |
| DaymetAnnual.YearKey | daymet_data_analysis/annual_mean_from_daily_data.py:40-44 | a file is never passed over; a name without a third `_` field raises, and a year key holds no `-` |
| DaymetAnnual.AnnualCell | daymet_data_analysis/annual_mean_from_daily_data.py:58-64 | where the last file is valid, the cell times the number of files is the valid sum; elsewhere it is the last file's nodata |
| DaymetAnnual.AnnualCellDivisor | daymet_data_analysis/annual_mean_from_daily_data.py:60-63 | where the last file is valid, the cell times the number of files is the valid sum: the divisor is the file count |
| DaymetAnnual.AnnualCellAllValid | daymet_data_analysis/annual_mean_from_daily_data.py:58-64 | where every file is valid, the cell equals the masked mean |
| DaymetAnnual.AnnualCellBelowMean | daymet_data_analysis/annual_mean_from_daily_data.py:60-63 | where some file is invalid but the last is valid, positive values give a cell below the masked mean |
| DaymetAnnual.AddValid | daymet_data_analysis/annual_mean_from_daily_data.py:58-59 | the sum adds only valid values |
| DaymetAnnual.AnnualMean | daymet_data_analysis/annual_mean_from_daily_data.py:48-64 | the loop with its file counter gives `sum/count`, with nodata where the last file is invalid |
| DaymetAnnual.FileNamesDistinct | daymet_data_analysis/annual_mean_from_daily_data.py:77 | different years get different file names |
| DaymetAnnual.WriteYear | daymet_data_analysis/annual_mean_from_daily_data.py:47-78 | one year's output: the annual raster of its files, named `daymet_srad_{year}.tif` |
| DaymetAnnual.AnnualMeans | daymet_data_analysis/annual_mean_from_daily_data.py:39-78 | fails exactly when a name has no year field; otherwise one raster per year, in first-met order |
| DaymetAnnualTrend.FileYear | daymet_data_analysis/annual_mean_mk_test.py:25 | a file is never passed over: a name without a third `_` field raises |
| DaymetAnnualTrend.FileYearOfName | daymet_data_analysis/annual_mean_mk_test.py:25 | `daymet_srad_<y>.tif` carries the year `y` |
| DaymetAnnualTrend.YearsOf | daymet_data_analysis/annual_mean_mk_test.py:43 | the years of the kept files, in their order |
| DaymetAnnualTrend.Selection | daymet_data_analysis/annual_mean_mk_test.py:41-43 | fails exactly when a `.tif` name's year raises; the years are sorted and one per kept file |
| DaymetAnnualTrend.SelectionSpec | daymet_data_analysis/annual_mean_mk_test.py:24-25 | the kept files are the `.tif` files whose year is in range; the years are a permutation of theirs |
| DaymetAnnualTrend.BandNames | daymet_data_analysis/annual_mean_mk_test.py:48 | `daymet_srad_{year}.tif`, one per sorted year |
| DaymetAnnualTrend.AnnualTrend | daymet_data_analysis/annual_mean_mk_test.py:41-88 | fails on an unreadable year, an empty selection or bands of different shapes; otherwise the three trend rasters over the sorted years' bands, with the first kept file as template |
| PixelTrend.ToNaN | daymet_data_analysis/annual_mean_mk_test.py:51 | a cell becomes NaN exactly when it equals the band's nodata |
| PixelTrend.Series | daymet_data_analysis/annual_mean_mk_test.py:66 | one value per band, in stack order |
| PixelTrend.Present | daymet_data_analysis/annual_mean_mk_test.py:70 | the non-NaN values are never more than the series |
| PixelTrend.PresentEmpty | daymet_data_analysis/annual_mean_mk_test.py:67 | the test gets nothing exactly when the whole series is NaN |
| PixelTrend.PresentAppend | daymet_data_analysis/annual_mean_mk_test.py:70 | dropping NaNs keeps the order |
| PixelTrend.PresentMembers | daymet_data_analysis/annual_mean_mk_test.py:70 | the test gets exactly the values present in the series |
| PixelTrend.PresentComplete | daymet_data_analysis/annual_mean_mk_test.py:70 | a series without NaN is passed to the test whole |
| PixelTrend.Trends | daymet_data_analysis/annual_mean_mk_test.py:57-74 | each of the three result rasters has one cell per pixel |
| PixelTrend.PixelTrends | daymet_data_analysis/annual_mean_mk_test.py:57-74 | the nested pixel loop computes `Trends` |
| PixelTrend.AllNaNStaysNaN | daymet_data_analysis/annual_mean_mk_test.py:57-69 | a pixel that is NaN in every band stays NaN in all three rasters |
| PixelTrend.MannKendallPixel | daymet_data_analysis/annual_mean_mk_test.py:70-73 | any other pixel holds the test's slope, p-value and tau for its non-NaN values |
| PixelTrend.Bands | daymet_data_analysis/annual_mean_mk_test.py:46-52 | one band per name, in order |
| PixelTrend.ReadStack | daymet_data_analysis/annual_mean_mk_test.py:46-52 | the reading loop appends the bands in order |
| PixelTrend.StackAndTest | daymet_data_analysis/annual_mean_mk_test.py:54-74 | stacking fails exactly for no band or bands of different shapes; otherwise the pixel loop's result |
| PixelTrend.TrendOutputs | daymet_data_analysis/annual_mean_mk_test.py:84-88 | three outputs, all with the same template |
| DaymetSeasonalTrend.SeasonFiles | daymet_data_analysis/seasonal_mean_mk_test.py:48 | a file belongs to a season exactly when it ends in `_{season}.tif` |
| DaymetSeasonalTrend.SeasonFileYear | daymet_data_analysis/seasonal_mean_mk_test.py:51-56 | raises exactly when the name has no third `_` field; a file is passed over only when that field is not an integer |
| DaymetSeasonalTrend.SeasonFileYearOfName | daymet_data_analysis/seasonal_mean_mk_test.py:53 | `daymet_srad_<y>_<season>.tif` carries the year `y` |
| DaymetSeasonalTrend.YearsOf | daymet_data_analysis/seasonal_mean_mk_test.py:56 | the kept files' years, in listing order |
| DaymetSeasonalTrend.Selection | daymet_data_analysis/seasonal_mean_mk_test.py:49-58 | fails exactly when a name has no third field; the kept files, in listing order, with one year each |
| DaymetSeasonalTrend.SelectSeason | daymet_data_analysis/seasonal_mean_mk_test.py:49-58 | the selection loop computes `Selection` |
| DaymetSeasonalTrend.SelectFiles | daymet_data_analysis/seasonal_mean_mk_test.py:51-58 | the try/except loop keeps in-range years, passes over non-integers and fails on a missing field |
| DaymetSeasonalTrend.KeptSeasonFiles | daymet_data_analysis/seasonal_mean_mk_test.py:51-58 | a season's file is kept exactly when its third field is an integer in range |
| DaymetSeasonalTrend.BandNames | daymet_data_analysis/seasonal_mean_mk_test.py:65 | `daymet_srad_{year}_{season}.tif`, one per sorted year |
| DaymetSeasonalTrend.StackOutcome | daymet_data_analysis/seasonal_mean_mk_test.py:60-99 | a season that writes writes three rasters, with the first kept file as template |
| DaymetSeasonalTrend.OutcomeBands | daymet_data_analysis/seasonal_mean_mk_test.py:60-69 | the bands are read in ascending year order, whatever the listing order |
| DaymetSeasonalTrend.SeasonErrors | daymet_data_analysis/seasonal_mean_mk_test.py:51-71 | a season fails on a missing third field exactly when one occurs, and has nothing to stack exactly when no file is kept |
| DaymetSeasonalTrend.RunErrorFrom | daymet_data_analysis/seasonal_mean_mk_test.py:44-99 | an exception that ends the run is the failure of one of the seasons |
| DaymetSeasonalTrend.RunStops | daymet_data_analysis/seasonal_mean_mk_test.py:44 | once a season raises, the later seasons change nothing |
| DaymetSeasonalTrend.RunAllWritten | daymet_data_analysis/seasonal_mean_mk_test.py:44-99 | when every season succeeds, each writes its three rasters |
| DaymetSeasonalTrend.StackSeason | daymet_data_analysis/seasonal_mean_mk_test.py:60-99 | sorting, reading, stacking and the pixel loop compute `StackOutcome` |
| DaymetSeasonalTrend.SeasonTrend | daymet_data_analysis/seasonal_mean_mk_test.py:47-99 | one season of the script |
| DaymetSeasonalTrend.SeasonalTrends | daymet_data_analysis/seasonal_mean_mk_test.py:33-99 | the seasons autumn, summer, spring, winter in turn, until one raises |
| TeraAqua.Considered | nasa_neo_data_analysis/tera_aqua_averaging.py:24 | a file one loop looks at never carries the other satellite's product prefix |
| TeraAqua.DateKey | nasa_neo_data_analysis/tera_aqua_averaging.py:24-25 | a file is passed over exactly when its loop does not look at it, and a date holds at most ten characters |
| TeraAqua.Take10 | nasa_neo_data_analysis/tera_aqua_averaging.py:25 | `[:10]`: the first ten characters, or the whole of a shorter field |
| TeraAqua.DateOfName | nasa_neo_data_analysis/tera_aqua_averaging.py:25 | the date is the first ten characters of the fifth `_` field |
| TeraAqua.TargetsDistinct | nasa_neo_data_analysis/tera_aqua_averaging.py:27 | different dates get different copy targets |
| TeraAqua.DirEntries | nasa_neo_data_analysis/tera_aqua_averaging.py:23 | one entry per listed name, in order |
| TeraAqua.AquaCopied | nasa_neo_data_analysis/tera_aqua_averaging.py:26-28 | every considered Aqua file is copied under its date |
| TeraAqua.TerraCopied | nasa_neo_data_analysis/tera_aqua_averaging.py:35-37 | a Terra file is copied when no earlier file had its date |
| TeraAqua.Copies | nasa_neo_data_analysis/tera_aqua_averaging.py:23-37 | there is at most one copy per listed file |
| TeraAqua.CopiesFrom | nasa_neo_data_analysis/tera_aqua_averaging.py:24-37 | every copy is of a file under its own date, and of a Terra file only when it was the first of that date |
| TeraAqua.AquaBeforeTerra | nasa_neo_data_analysis/tera_aqua_averaging.py:23-34 | in each date's list the Aqua files come before the Terra files |
| TeraAqua.Half | nasa_neo_data_analysis/tera_aqua_averaging.py:45 | each cell is the mean of the two input cells |
| TeraAqua.AveragedDates | nasa_neo_data_analysis/tera_aqua_averaging.py:40-41 | a date is averaged exactly when it has exactly two files |
| TeraAqua.AverageCells | nasa_neo_data_analysis/tera_aqua_averaging.py:41-45 | an average goes to its date's file, reads the date's two files, and holds `(a+b)/2` pixel by pixel |
| TeraAqua.File | nasa_neo_data_analysis/tera_aqua_averaging.py:26 | one file's `date_to_files[date].append` keeps the grouping exact |
| TeraAqua.Averages | nasa_neo_data_analysis/tera_aqua_averaging.py:40-47 | there is at most one average per date |
| TeraAqua.AverageDuplicates | nasa_neo_data_analysis/tera_aqua_averaging.py:40-47 | the averaging loop computes the averages, in dictionary order |
| TeraAqua.AquaFile | nasa_neo_data_analysis/tera_aqua_averaging.py:24-28 | one Aqua file is grouped and copied, keeping the loop invariant |
| TeraAqua.TerraFile | nasa_neo_data_analysis/tera_aqua_averaging.py:32-37 | one Terra file is grouped, and copied when its date's list then has length 1 |
| TeraAqua.AquaLoop | nasa_neo_data_analysis/tera_aqua_averaging.py:23-28 | the Aqua loop stops at the first name without a date field, or at the end |
| TeraAqua.TerraLoop | nasa_neo_data_analysis/tera_aqua_averaging.py:31-37 | the Terra loop continues the grouping, with the same stopping rule |
| TeraAqua.Stopped | nasa_neo_data_analysis/tera_aqua_averaging.py:25 | a name without a fifth field ends the script there |
| TeraAqua.PairByDate | nasa_neo_data_analysis/tera_aqua_averaging.py:14-47 | the copies made up to the first raising name; nothing is averaged exactly when a name raises; otherwise the averages of the two-file dates |
| Era5Daily.Window | era5_data_analysis/nc_to_tif.py:35-40 | day `d` uses hours `[24d, min(24d+24, total))` |
| Era5Daily.WindowsContiguous | era5_data_analysis/nc_to_tif.py:35-40 | a full day's window has 24 hours and ends where the next day's begins |
| Era5Daily.WindowsDisjoint | era5_data_analysis/nc_to_tif.py:35-40 | no hour lies in two days' windows |
| Era5Daily.HourCovered | era5_data_analysis/nc_to_tif.py:34-43 | every hour of the first 365 days that the file has falls into day `h // 24` |
| Era5Daily.LeapDayDropped | era5_data_analysis/nc_to_tif.py:21-22 | hours after day 365 are in no window |
| Era5Daily.HourSumBounds | era5_data_analysis/nc_to_tif.py:43 | hourly values in `[lo, hi]` sum to between `n*lo` and `n*hi` |
| Era5Daily.DayCell | era5_data_analysis/nc_to_tif.py:42-43 | a day's mean is NaN exactly when its window is empty |
| Era5Daily.DayCellMean | era5_data_analysis/nc_to_tif.py:43 | otherwise the mean times the hour count is the hours' sum |
| Era5Daily.DayCellFraction | era5_data_analysis/nc_to_tif.py:43 | cloud fractions in `[0, 1]` give daily means in `[0, 1]` |
| Era5Daily.ShortFileNaN | era5_data_analysis/nc_to_tif.py:39-43 | a file that ends before a day begins leaves that day NaN |
| Era5Daily.WindowMeans | era5_data_analysis/nc_to_tif.py:42-43 | `np.mean(tcc[start:end], axis=0)`: one cell per pixel, NaN exactly when the window is empty |
| Era5Daily.DayCells | era5_data_analysis/nc_to_tif.py:42-43 | one cell per pixel |
| Era5Daily.DateLabel | era5_data_analysis/nc_to_tif.py:47 | the label starts with the year and a dash, and for the days the script uses it is six characters longer than the year |
| Era5Daily.Format02Digits | era5_data_analysis/nc_to_tif.py:47 | `:02d` below 100 is the tens digit, then the units digit |
| Era5Daily.Format02Injective | era5_data_analysis/nc_to_tif.py:47 | `:02d` is one-to-one below 100 |
| Era5Daily.DateLabelParts | era5_data_analysis/nc_to_tif.py:47 | the month and day fields are `d//30+1` and `d%30+1`, zero-padded |
| Era5Daily.LabelYear | era5_data_analysis/nc_to_tif.py:47 | equal labels have equal years |
| Era5Daily.LabelDay | era5_data_analysis/nc_to_tif.py:47 | within a year, equal labels have equal days |
| Era5Daily.DateLabelsDistinct | era5_data_analysis/nc_to_tif.py:47-48 | two labels are equal exactly when their years and days are, so no output is overwritten |
| Era5Daily.MonthThirteen | era5_data_analysis/nc_to_tif.py:47 | the month field reads 13 exactly for days 360 to 364 |
| Era5Daily.FileOutputs | era5_data_analysis/nc_to_tif.py:46-57 | exactly 365 outputs per file, leap year or not |
| Era5Daily.DailyMeans | era5_data_analysis/nc_to_tif.py:32-43 | the mean loop fills each of the 365 days with its window's means |
| Era5Daily.ProcessFile | era5_data_analysis/nc_to_tif.py:24-57 | the mean loop and the saving loop write the file's outputs |
| Era5Daily.NcFiles | era5_data_analysis/nc_to_tif.py:61 | the `.nc` files of the listing, sorted |
| Era5Daily.FileYear | era5_data_analysis/nc_to_tif.py:64 | a year read from the first four characters lies strictly between -1000 and 10000 |
| Era5Daily.FileYearOfName | era5_data_analysis/nc_to_tif.py:64 | a name starting with a four-digit year carries that year |
| Era5Daily.Run | era5_data_analysis/nc_to_tif.py:63-66 | the run stops early only when some file's year does not read |
| Era5Daily.RunStops | era5_data_analysis/nc_to_tif.py:63-66 | once a year fails to read, the later files change nothing |
| Era5Daily.RunAllWritten | era5_data_analysis/nc_to_tif.py:63-66 | when every year reads, each file writes its 365 days |
| Era5Daily.ConvertFiles | era5_data_analysis/nc_to_tif.py:63-66 | the file loop converts each file in turn until a year fails to read |
| Era5Daily.ConvertAll | era5_data_analysis/nc_to_tif.py:61-66 | the whole script over the sorted `.nc` files |
| Susceptibility.ClassOf | subregion_raster_value_distribution/process_1.py:67-71 | a value gets a class exactly when it lies in `[0, 1]`, and the class found holds it |
| Susceptibility.ClassesPartition | subregion_raster_value_distribution/process_1.py:67-71 | the five intervals are disjoint and cover exactly `[0, 1]` |
| Susceptibility.CountIn | subregion_raster_value_distribution/process_1.py:67-71 | a class count is at most the number of valid values |
| Susceptibility.CountOnScale | subregion_raster_value_distribution/process_1.py:74 | the values in `[0, 1]` are at most the number of valid values |
| Susceptibility.TallyOf | subregion_raster_value_distribution/process_1.py:64-71 | each count is its class count, all 0 without valid data |
| Susceptibility.TotalOnScale | subregion_raster_value_distribution/process_1.py:67-74 | `total_pixels` is the number of valid values in `[0, 1]`; values outside are not counted |
| Susceptibility.Percent | subregion_raster_value_distribution/process_1.py:80-87 | the percentage is 0 when there is no pixel and when the class is empty |
| Susceptibility.PercentBounds | subregion_raster_value_distribution/process_1.py:80-85 | each percentage lies in `[0, 100]` |
| Susceptibility.PercentagesSum | subregion_raster_value_distribution/process_1.py:80-87 | with pixels the five percentages sum to 100; without, all are 0 |
| Susceptibility.Valid | subregion_raster_value_distribution/process_1.py:50-53 | filtering never adds pixels |
| Susceptibility.ValidMembers | subregion_raster_value_distribution/process_1.py:50-53 | a value is kept exactly when some pixel holds it, it is not NaN and it is not nodata |
| Susceptibility.Nodata | subregion_raster_value_distribution/process_1.py:27-30 | the declared nodata value, or 0 when the raster declares none |
| Susceptibility.ZeroNeverCounted | subregion_raster_value_distribution/process_1.py:28-30 | with the default nodata 0, a 0 pixel is never counted, although 0 is in the lowest class |
| Susceptibility.StatsOf | subregion_raster_value_distribution/process_1.py:64-87 | one percentage per class |
| Susceptibility.Summarise | subregion_raster_value_distribution/process_1.py:35-112 | each row gets its polygon's statistics; a row whose masking raises is left unchanged |
| LakeMatching.FieldLookup | extract_polygon_attribute_from_point.py:37-45 | the first field whose lower case is the target's, or None exactly when there is none |
| LakeMatching.FindField | extract_polygon_attribute_from_point.py:37-45 | the search loop with early return computes `FieldLookup` |
| LakeMatching.Missing | extract_polygon_attribute_from_point.py:61 | the required columns absent from the table |
| LakeMatching.BBoxes | extract_polygon_attribute_from_point.py:53-56 | the rectangle `(x-h, y-h, x+h, y+h)` holds the point, and the fallback rectangle holds the primary one |
| LakeMatching.FirstHit | extract_polygon_attribute_from_point.py:113-120 | the id of the first candidate with a geometry that intersects the point; None exactly when there is none |
| LakeMatching.Scan | extract_polygon_attribute_from_point.py:113-120 | the candidate loop with `continue` and `break` computes `FirstHit` |
| LakeMatching.PointOf | extract_polygon_attribute_from_point.py:99-104 | with no reprojection, the point's x is the longitude and its y the latitude |
| LakeMatching.Search | extract_polygon_attribute_from_point.py:106-132 | nothing is found exactly when no candidate of either box intersects the point |
| LakeMatching.MatchOf | extract_polygon_attribute_from_point.py:86-143 | a result keeps the row's id and short name |
| LakeMatching.UnreadableUnmatched | extract_polygon_attribute_from_point.py:87-97 | a row whose coordinates do not convert gets NaN coordinates and no id |
| LakeMatching.PrimaryDecides | extract_polygon_attribute_from_point.py:107-122 | a primary hit decides the row; the fallback candidates do not matter |
| LakeMatching.MatchedFeature | extract_polygon_attribute_from_point.py:107-132 | an id comes from the first primary hit, or else from the first fallback hit when the primary search finds nothing |
| LakeMatching.MatchedCount | extract_polygon_attribute_from_point.py:137-141 | at most one match per result |
| LakeMatching.MatchedCountSnoc | extract_polygon_attribute_from_point.py:137-141 | a result counts as matched exactly when it has an id, so a null id counts as unmatched |
| LakeMatching.MatchRow | extract_polygon_attribute_from_point.py:87-143 | one row: the conversion, the primary search, then the fallback only when the primary finds nothing |
| LakeMatching.MatchAll | extract_polygon_attribute_from_point.py:86-143 | one result per row, in order; `matched` counts results with an id, and `matched + unmatched` is the number of rows |
| LakeMatching.MatchRows | extract_polygon_attribute_from_point.py:58-143 | fails listing the missing columns exactly when some are missing, or when no `Hylak_id` field exists; otherwise the row loop's results and counters |

## Left out

- Library I/O is not modelled:
  - raster and vector I/O through rasterio, GDAL/OGR, geopandas and arcpy;
  - pandas CSV parsing (chunking, `on_bad_lines` skipping, `read_headers` and its empty-header error);
  - the `csv` reader and writer, codec decoding, and `get_sample_text`;
  - file copy, deletion and directory creation, console printing and tqdm progress bars.

  The scripts' decisions about these calls are modelled: which file is read, copied or deleted, and what is written. The calls themselves are parameters.
- Floating point is not modelled: means and percentages are real numbers. float32 casts, rounding, and NaN propagation inside `np.mean` are left out. NaN is `None` where a script tests for it.
- Two-dimensional rasters are flattened to row-major cell sequences. The pixel loops over `(i, j)` are one loop over the cells.
- The Mann-Kendall test, `csv.Sniffer` (`sniff` and `has_header`), `Intersects`, the coordinate transformation and polygon masking are uninterpreted function parameters.
- Hard-coded paths, years and directory listings are parameters. `Path.expanduser` and `os.path.join` are left out.
- The progress-bar total of the unique-values extractor, `max(0, count - 1)`, is display only and is not modelled. The row count it uses is modelled by `CsvUniques.FastCountRows`.
- Output raster metadata (driver, dtype, compression, the 3.4e38 nodata of the trend rasters, the ERA5 transform) is not modelled.
- The clipping scripts, the download scripts and daymet_data_analysis/nc_to_tif.py are not part of this model: they are raster I/O, network clients and library date arithmetic.
- LineNumbers.DigitRun: takes ASCII digits only. The pattern `^\d+\s{2}` is a str pattern without `re.ASCII`, so Python's `\d` also matches the other Unicode decimal digits, such as `١`.
- LineNumbers.StripLineNumber: because of that, a line that starts with non-ASCII decimal digits and two white-space characters is left unchanged, where the script strips the number.
- LineNumbers.StripLineNumberSpec: states the match condition for the ASCII digit class only.
- CsvPreview.CreatePreview: names its output with the documented `Paths.OutputName`, not with the code's `build_output_path` (`Paths.OutputNameAsWritten`). The two agree on names with one extension (`Paths.OutputNameSingleSuffix`), and differ on every name with two (`Paths.OutputNameAsWrittenRepeatsSuffix`).
- `Text.Lower` and `Text.ParseInt` cover ASCII only. Non-ASCII case mappings and Unicode digits accepted by Python's `int()` are left out.
- CeresSeasonal.SeasonalMeans: requires all rasters to have the same size (`SameWidth`); otherwise numpy raises a broadcasting error, which is not modelled.
- CeresSeasonal.WriteGroups: the same `SameWidth` requirement.
- CeresSeasonal.WriteGroup: the same `SameWidth` requirement.
- CeresPeriodSeason.PeriodSeasonMeans: the same `SameWidth` requirement.
- CeresPeriodSeason.WriteSeason: the same `SameWidth` requirement.
- CeresPeriodAnnual.PeriodMean: the same `SameWidth` requirement.
- DaymetAnnual.AnnualMeans: the same `SameWidth` requirement.
- DaymetAnnual.WriteYear: the same `SameWidth` requirement.
- DaymetAnnual.AnnualMean: requires the rasters to be of one size (`Aligned`), for the same reason.
- MaskedMean.Mean: requires `Aligned`, for the same reason.
- TeraAqua.PairByDate: requires every band read to have one grid width (`OneGrid`); a shape mismatch between an Aqua and a Terra file is not modelled.
- TeraAqua.AverageDuplicates: the same `OneGrid` requirement.
- Era5Daily.WindowMeans: every hour of the window is averaged as an ordinary value. netCDF4 reads `tcc` as a masked array that masks the hours equal to the variable's `_FillValue` or `missing_value`, and `np.mean` then averages only the unmasked hours; a pixel whose hours are all masked is written as masked data rather than NaN. This fill-value masking is not modelled.
- Era5Daily.DayCell: the same: fill-value hours count as ordinary hours, and netCDF4's masked mean is not modelled.
- Per-file nodata: each raster carries the nodata value its metadata declares, and a cell where no file is valid takes the last file's value, as in the scripts. rasterio always puts a `nodata` key in `meta`, so the `-9999` default of `meta.get` never applies. A file that declares no nodata value (`None`) is not modelled: numpy then counts every cell as valid, so the nodata fallback of `np.where` is never taken (and, being `None`, it would make an object array).

## Findings

| source | as written | input that shows it | evidently intended | confidence | as-written member | corrected member |
|---|---|---|---|---|---|---|
| csv_preview.py:51-55 | the output name is `stem` + tag + all suffixes joined; `stem` removes only the last suffix, so the inner suffixes appear twice (the same code is at csv_uniques.py:248-252) | `obs.v2.csv` gives `obs.v2_preview.v2.csv` | the tag goes before the full extension chain, as the docstring says: `obs_preview.v2.csv` | not executed | Paths.OutputNameAsWrittenRepeatsSuffix | Paths.OutputName |
