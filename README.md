# Patent-gazette XML to CSV extraction, modelled in Dafny

The parser reads Japanese patent-gazette XML documents (the ST.96 schema of
the Japan Patent Office). Each document passes a publication-status filter.
Every accepted document becomes one fixed-shape CSV row of 110 cells. The
row is appended to `<key>.csv`, where the key is the application number,
or the XML file's stem when the document has none. This project models that
extraction stage, `xml_to_csv` in `app/parse.py`, with its nested field reader
`safe_get_text` and the file-count rule of `get_pdf_page_count`.

Layout, one module per file:

- `wrappers.dfy` (`Wrappers`): the `Option` type.
- `text.dfy` (`Text`): the string operations the field reader applies:
  - Python's `str.strip()`, specified by `StripsTo` and computed by `Strip`;
  - `str.replace(c, "")`, as `Without`;
  - `sep.join(parts)`, as `Join`.

  Whitespace is the set of characters `str.isspace()` accepts. That set
  includes U+3000, the ideographic space.
- `xml.dfy` (`Xml`): a parsed element (own text, children, tail) and
  ElementTree's `itertext()`. A document is an uninterpreted lookup from a
  query to the element it finds. `find` and `findtext` are read off that
  lookup.
- `fields.dfy` (`Fields`): `safe_get_text`, with its three branches:
  - nothing found;
  - own text only, when the separator is empty;
  - all text nodes joined by the separator, newlines removed, then stripped.
- `pdf.dfy` (`PdfPages`): the page count of the PDF beside a document. A
  directory yields pages only when it holds exactly one `.pdf` file
  (case-insensitive). Otherwise the count is 0, and it is also 0 when
  reading fails.
- `rows.dfy` (`Rows`): the row as an ordered table of 110 column rules,
  evaluated against a document:
  - columns 0-13: the markers, bibliographic fields, page count and
    classifications;
  - 12 applicant triples from column 14;
  - 12 agent pairs from column 50;
  - 12 inventor pairs from column 74;
  - the 12 long texts from column 98.
- `extraction.dfy` (`Extraction`): the status filter, the grouping key and the
  file name. `Write` gives the effect of one file and `Process` the effect of
  a batch. The class `Extractor` holds the output directory
  (`map<string, seq<Row>>`). Its `Run` method is the driver loop, proved
  against `Process`.

Three facts about the code that the model records:

- A joined-text field whose element is missing reads as `""`
  (`app/parse.py:74`). `Fields.NoTextNodesReadsEmpty` proves this for
  every separator.
- A row has 110 cells (`app/parse.py:99-236`). `Rows.Width` records the 110.
- The grouping key is the application number as `findtext` returns it,
  without stripping. Column 5 holds the stripped text.
  `Extraction.KeyIsNotStripped` states the difference.

## Model

| member | source | states |
|---|---|---|
| Text.Strip | app/parse.py:72-73 | The result is trimmed. It is a contiguous slice of the input with only whitespace before and after it, and it has no character the input lacks. |
| Text.StripsToUnique | app/parse.py:72-73 | Any trimmed text that the input is made of, padded by whitespace, is exactly what `strip()` returns. So stripping is fully determined by its specification. |
| Text.StripPadded | app/parse.py:72-73 | Stripping `a + m + b` gives `m` when `a` and `b` are all whitespace and `m` is trimmed. |
| Text.StripIdempotent | app/parse.py:72-73 | Stripping twice is stripping once. |
| Text.StripOfTrimmed | app/parse.py:73 | A text without whitespace at either end is its own strip. |
| Text.Without | app/parse.py:72 | `replace(c, "")` leaves no `c`, and the result is no longer than the input. |
| Text.WithoutKeepsOthers | app/parse.py:104 | Every character other than the removed one keeps its number of occurrences. |
| Text.WithoutAppend | app/parse.py:72 | Removing a character distributes over concatenation. |
| Text.WithoutAbsent | app/parse.py:72 | Removing a character the text does not hold changes nothing. |
| Text.Join | app/parse.py:72 | The joined length is the parts' total plus one separator between each pair of parts. |
| Text.JoinSingle | app/parse.py:72 | Joining a single part gives that part, whatever the separator. |
| Xml.Find | app/parse.py:69 | `find` returns an element exactly when the query finds one, and returns that element. |
| Xml.FindText | app/parse.py:85 | `findtext` gives `None` when nothing is found. It gives the unstripped own text, or `""` when the element has no text. |
| Xml.ItText | app/parse.py:72 | `itertext()` yields only non-empty texts. |
| Xml.ItTextOfLeaf | app/parse.py:72 | For an element without children, `itertext()` yields its own text and nothing else. The tail is not read. |
| Xml.ItTextStartsWithOwnText | app/parse.py:72 | A non-empty own text is the first text `itertext()` yields. |
| Fields.SafeGetText | app/parse.py:67-77 | Every result is trimmed. Nothing found reads as `""` for any separator. With the empty separator, the result is the strip of the element's own text, or `""` if it has none. With a non-empty separator, the result is the strip of all text nodes joined and with newlines removed, and it holds no newline. |
| Fields.NoTextNodesReadsEmpty | app/parse.py:71-74 | An element with no text nodes reads as `""` even with a non-empty separator. |
| Fields.DirectTextOnly | app/parse.py:73 | With the empty separator, children and tail are never read. Two elements with the same own text read the same. |
| Fields.LeafIgnoresSeparator | app/parse.py:71-73 | For a childless element whose text has no newline, every separator gives the strip of its text. |
| Fields.TrimmedTextReadsBack | app/parse.py:73 | An already-trimmed own text is read back unchanged. |
| PdfPages.Lower | app/parse.py:21 | An ASCII capital becomes its small letter; every other character is kept. |
| PdfPages.LowerString | app/parse.py:21 | `lower()` keeps the length and lowercases character by character. |
| PdfPages.IsPdfName | app/parse.py:21 | The test on the last four characters holds exactly when the lowercased name ends with ".pdf". |
| PdfPages.PdfNameIgnoresCase | app/parse.py:21 | `.pdf`, `.PDF` and `.Pdf` all count as PDF names. `.pd` and `.xml` do not. |
| PdfPages.PdfFiles | app/parse.py:21 | The filtered listing holds exactly the listing's PDF names. |
| PdfPages.PageCount | app/parse.py:21-41 | The count is 0 unless there is exactly one PDF name. It is 0 when reading fails. A non-zero count comes from reading the single PDF. With one PDF that is read, it is the pages read. |
| PdfPages.TwoPdfsGiveZero | app/parse.py:24-26 | Two PDF names in a listing give 0, whatever reading would report. |
| PdfPages.NoPdfGivesZero | app/parse.py:24-26 | A listing without a PDF name gives 0. |
| PdfPages.SinglePdfGivesItsPages | app/parse.py:29-37 | Exactly one PDF name, read successfully, gives the pages read. |
| Rows.Eval | app/parse.py:99-236 | One cell: only the page-count rule gives a number. A constant gives its text. A date cell holds no '-'. A column whose query finds nothing gives `""`. |
| Rows.SchemaLayout | app/parse.py:99-236 | The column table has 110 rules: columns 0-13, then the applicant, agent and inventor blocks at 14, 50 and 74, then the long texts at 98. |
| Rows.BuildRow | app/parse.py:99-236 | Every row has 110 cells. Cells 0-2 are "Z", "Y" and "種別なし". Cell 10 is the page count and every other cell is a string. The two date cells hold no '-'. Cell 5 is the stripped application number. |
| Rows.SchemaShape | app/parse.py:99-120 | Column 10 is the only page-count column, and columns 0-2 are the only constants. Columns 4 and 6 are dates, and column 5 reads the application number with the empty separator. |
| Rows.SlotColumn | app/parse.py:123-210 | Field `k` of occurrence `slot` lies inside its group's block of 12 occurrences, before the long texts. |
| Rows.SlotColumnRule | app/parse.py:123-210 | Field `k` of occurrence `slot` of a group always sits in the same column, and that column reads exactly that field of that occurrence. |
| Rows.SlotCell | app/parse.py:123-210 | The cell of occurrence `slot`, field `k`, is `safe_get_text` of that field with the empty separator. |
| Rows.SlotsWithinCapacity | app/parse.py:123-210 | No column reads an occurrence beyond the twelfth. |
| Rows.ExtraOccurrenceIgnored | app/parse.py:123-210 | Whatever a thirteenth or later occurrence holds, the row is the same and no column shifts. |
| Rows.ClassificationCells | app/parse.py:116-120 | The national classification joins its text nodes with six spaces. The theme code and F-term columns pass `""` and so read only their own text. |
| Rows.LongTextCell | app/parse.py:213-235 | Long text `t` is in column 98 + t. It reads the one element `find` returns for its path, joins the text nodes inside that element with four spaces and holds no newline. |
| Rows.RowDependsOnlyOnColumnQueries | app/parse.py:99-236 | Two documents whose column queries find the same elements give the same row. |
| Rows.EmptyDocumentRow | app/parse.py:99-236 | A document in which nothing is found still gives a full row: `""` in every cell except the constants and the page count. |
| Extraction.Status | app/parse.py:80 | The status is trimmed, and a document without a status element reads as `""`. |
| Extraction.Accepted | app/parse.py:83 | An accepted document has a status element with text. |
| Extraction.AcceptedIff | app/parse.py:80-83 | A document is accepted exactly when its status element exists, has text, and that text stripped is "公開特許公報(A)" or "公表特許公報(A)". |
| Extraction.MissingStatusRejected | app/parse.py:80-83 | A document without a status element is skipped. |
| Extraction.LastDot | app/parse.py:87 | The index of the last '.' in the name, or -1 when it has none. |
| Extraction.Stem | app/parse.py:87 | The stem is a prefix of the file name. |
| Extraction.StemOfXmlName | app/parse.py:45 | The stem of `<base>.xml` is `<base>`. |
| Extraction.GroupingKey | app/parse.py:85-87 | A non-empty application number is the key. A missing or empty one gives the stem. Any key other than the stem is the non-empty application number. |
| Extraction.KeyIsNotStripped | app/parse.py:85-105 | The key keeps the application number's surrounding whitespace, while column 5 holds it stripped. |
| Extraction.CsvName | app/parse.py:89 | The file name is the key followed by ".csv". |
| Extraction.CsvNameInjective | app/parse.py:89 | Distinct keys give distinct file names. |
| Extraction.Write | app/parse.py:80-96 | A file that appends a row parsed, listed its directory, and appends to a file that can be opened. |
| Extraction.WriteGates | app/parse.py:80-96 | A file appends a row exactly when it parsed, its status is accepted, its directory can be listed and its key's file opens. The row is the document's full row with the page count of its directory, and it goes to the file of its key. |
| Extraction.Writes | app/parse.py:59 | There is one append per discovered file, in discovery order. |
| Extraction.Step | app/parse.py:95-238 | One append adds its row at the end of its file. Every other file keeps its contents, and no rows are removed. |
| Extraction.Apply | app/parse.py:59-245 | A sequence of appends keeps every existing file and keeps its old rows as a prefix. |
| Extraction.Process | app/parse.py:59-245 | A batch keeps every existing file and keeps its old rows as a prefix. |
| Extraction.AppendedTo | app/parse.py:59-238 | A sequence of appends adds at most one row per append to a file. |
| Extraction.Appended | app/parse.py:59-238 | A batch adds at most one row per file processed to any output file. |
| Extraction.ProcessStep | app/parse.py:59-245 | Processing one more file is one more step on the output directory. |
| Extraction.ApplyAppends | app/parse.py:95-96 | Appends only: each file ends with its old rows, then the rows appended to it, in order. A file nothing was appended to keeps its contents. |
| Extraction.ProcessAppends | app/parse.py:59-238 | After a batch, every file is its old rows followed by the rows the batch wrote to it, in discovery order. A file the batch did not write is unchanged. |
| Extraction.AppendedRowsAreFull | app/parse.py:99-238 | Every appended row has 110 cells. |
| Extraction.AppendedConcat | app/parse.py:59 | What a sequence of files appends is what its parts append, one after the other. |
| Extraction.SkipEmptyAppend | app/parse.py:243-245 | An append-free step can be dropped without changing what is appended. |
| Extraction.FailureIsolated | app/parse.py:243-245 | A file that fails to parse, is skipped, has a directory that cannot be listed, or whose output file cannot be opened appends nothing. The files after it append exactly what they would append without it. |
| Extraction.AppendedCount | app/parse.py:59-238 | The number of rows appended to a file is the number of appends that go to it. |
| Extraction.OneRowPerAcceptedDocument | app/parse.py:83-238 | A file receives exactly one row per accepted, writable document of its key. |
| Extraction.SameKeyMerges | app/parse.py:95-96 | Two documents with one key leave both rows in that key's file, in processing order. |
| Extraction.MinimalRow | app/parse.py:99-236 | A document holding only the status and a trimmed application number gives that number in column 5 and `""` in every other non-constant text cell. |
| Extraction.MinimalDocument | app/parse.py:80-238 | That minimal document, processed into an empty directory, yields exactly one file, `<number>.csv`, with exactly one row. |
| Extraction.OnlyColumnFiveReadsApplicationNumber | app/parse.py:99-236 | No column except column 5 reads the application number, and no column reads the status. |
| Extraction.Extractor.constructor | app/parse.py:46 | The output directory starts with whatever it already holds. |
| Extraction.Extractor.AppendRow | app/parse.py:95-238 | Opening `<name>` in append mode and writing a row adds that row at the end of that file only. |
| Extraction.Extractor.ProcessFile | app/parse.py:60-245 | One iteration of the loop has exactly the effect `Write` gives that file. |
| Extraction.Extractor.Run | app/parse.py:59-245 | The loop leaves the directory `Process` specifies: every file is its old rows followed by the rows appended to it, in discovery order. |

## Left out

- XML parsing and XPath evaluation with namespaces (`app/parse.py:50-57, 63-64, 69, 85`). A document is an uninterpreted map from query to element: the element `find` returns, which is the first match only. So a long-text column holds the first paragraph or claim of its path, although the comments at `app/parse.py:214-222` say "all". Which element an XPath selects is not modelled, and neither is how positional predicates such as `Applicant[3]` resolve.
- Reading a PDF with PyPDF2 (`app/parse.py:29-37`). What reading reports is an input to `PdfPages.PageCount`, with `None` for a raised exception.
- Directory listing and recursive glob (`app/parse.py:21, 45`). The listing (`None` when `os.listdir` raises) and the discovered files, in discovery order, are inputs. A listing that raises escapes `get_pdf_page_count` and costs the document its row (`Extraction.Write`).
- `os.makedirs` and `os.chdir` (`app/parse.py:46-47`). The output directory is the `files` map of `Extractor`.
- CSV quoting, delimiter, line terminator and UTF-8 encoding (`app/parse.py:95-96, 238`). A row is a sequence of cells.
- Output files are keyed by the exact name string. File-system aliasing is not modelled: two keys such as `a` and `./a`, or `ABC` and `abc` on a case-insensitive file system, name one file in the source but two entries in the model.
- Failures of the file system: an output file that cannot be opened is listed in the `refused` set. A failure while writing, after the file was opened, is not modelled.
- The exception branch of `safe_get_text` (`app/parse.py:75-77`). In the model, finding and reading an element cannot raise.
- `print` diagnostics (`app/parse.py:25, 40, 61, 76, 239, 241, 244`).
- PdfPages.Lower: lowercases ASCII letters only. Python's `str.lower()` also lowercases other letters, but none of them can turn into the ASCII letters of ".pdf".
- Extraction.Stem: models `Path.stem` of the file name only, by its last-dot rule. Directory components are not modelled.
- `app/app.py` (a tkinter window and a background thread) and `app/unzip.py` (a wrapper around `zipfile`) are not part of this model.
