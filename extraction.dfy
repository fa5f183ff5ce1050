/**
 * The extraction stage driver `xml_to_csv`: for every discovered XML file,
 * filter on the publication status, choose the output file from the
 * application number, and append one row to that file.
 */
module Extraction {
  import opened Wrappers
  import opened Text
  import opened Xml
  import opened Fields
  import PdfPages
  import opened Rows

  const StatusQuery := Path(".//pat:PlainLanguageDesignationText")

  /** The two publication types that produce a row. */
  const UnexaminedPublication := "公開特許公報(A)"
  const NationalPublication := "公表特許公報(A)"

  /** The publication status as `safe_get_text` reads it: own text, stripped, or "". */
  function Status(doc: Document): (status: string)
    ensures Trimmed(status)
    ensures StatusQuery !in doc ==> status == ""
  {
    SafeGetText(Find(doc, StatusQuery), "")
  }

  /** The filter: the status is exactly one of the two allowed publication types. */
  predicate Accepted(doc: Document)
    ensures Accepted(doc) ==> StatusQuery in doc && doc[StatusQuery].text.Some?
  {
    Status(doc) == UnexaminedPublication || Status(doc) == NationalPublication
  }

  /**
   * The filter in terms of the document: the status element exists, has
   * text, and that text is an allowed publication type once the whitespace
   * around it is cut off.
   */
  lemma {:induction false} AcceptedIff(doc: Document)
    ensures Accepted(doc) <==>
              && StatusQuery in doc
              && doc[StatusQuery].text.Some?
              && (Strip(doc[StatusQuery].text.value) == UnexaminedPublication
                  || Strip(doc[StatusQuery].text.value) == NationalPublication)
  {
    if StatusQuery in doc && doc[StatusQuery].text.Some? {
      StripsToUnique(doc[StatusQuery].text.value, Status(doc));
    }
  }

  /** A document without a status element is skipped. */
  lemma MissingStatusRejected(doc: Document)
    requires StatusQuery !in doc
    ensures !Accepted(doc)
  {
  }

  /** Position of the last '.' of `s`, or -1. */
  function LastDot(s: string): (i: int)
    ensures -1 <= i < |s|
    ensures i >= 0 ==> s[i] == '.'
    ensures forall k :: i < k < |s| ==> s[k] != '.'
  {
    if s == [] then -1
    else if s[|s| - 1] == '.' then |s| - 1
    else LastDot(s[..|s| - 1])
  }

  /** `Path(name).stem`: the name without its last suffix; a leading or trailing dot is no suffix. */
  function Stem(name: string): (stem: string)
    ensures stem <= name
  {
    var i := LastDot(name);
    if 0 < i < |name| - 1 then name[..i] else name
  }

  /** The stem of a file found by the recursive "*.xml" pattern is its name without ".xml". */
  lemma StemOfXmlName(base: string)
    requires base != ""
    ensures Stem(base + ".xml") == base
  {
    var name := base + ".xml";
    assert name[|base|] == '.';
    assert LastDot(name) == |base|;
  }

  /**
   * The grouping key: the application number as `findtext` returns it
   * (unstripped) when it is non-empty, otherwise the file stem.
   */
  function GroupingKey(doc: Document, stem: string): (key: string)
    ensures FindText(doc, ApplicationNumberQuery).Some? && FindText(doc, ApplicationNumberQuery).value != "" ==>
              key == FindText(doc, ApplicationNumberQuery).value
    ensures key != stem ==> key != "" && FindText(doc, ApplicationNumberQuery) == Some(key)
    ensures (FindText(doc, ApplicationNumberQuery).None? || FindText(doc, ApplicationNumberQuery) == Some("")) ==>
              key == stem
  {
    match FindText(doc, ApplicationNumberQuery)
    case Some(t) => if t != "" then t else stem
    case None => stem
  }

  /**
   * The key is the application number as written, while its column holds
   * the stripped text: an application number with surrounding whitespace
   * names its file with that whitespace.
   */
  lemma KeyIsNotStripped(number: string, stem: string, pages: nat)
    requires number != ""
    ensures var doc := map[ApplicationNumberQuery := Node(Some(number), [], None)];
            && GroupingKey(doc, stem) == number
            && BuildRow(doc, pages)[ApplicationNumberColumn] == Str(Strip(number))
  {
  }

  /** The output file of a key. */
  function CsvName(key: string): (name: string)
    ensures |name| == |key| + 4 && name[..|key|] == key && name[|key|..] == ".csv"
  {
    key + ".csv"
  }

  /** The output file name determines the key. */
  lemma CsvNameInjective(k1: string, k2: string)
    requires CsvName(k1) == CsvName(k2)
    ensures k1 == k2
  {
    assert k1 == CsvName(k1)[..|k1|];
  }

  /**
   * One discovered XML file: its name, the parsed document (`None` when
   * parsing raised), the listing of its directory (`None` when listing
   * raised, which `get_pdf_page_count` does not catch), and what reading
   * that directory's PDF reports (`None` when reading raised).
   */
  datatype XmlFile = XmlFile(name: string, parsed: Option<Document>, siblings: Option<seq<string>>, pdfPages: Option<nat>)

  /** The output directory: file name to the rows it holds, oldest first. */
  type Output = map<string, seq<Row>>

  function Contents(out: Output, name: string): seq<Row> {
    if name in out then out[name] else []
  }

  /** What one file does to the output directory: nothing, or one row appended to one file. */
  type Append = Option<(string, Row)>

  /**
   * The append one file causes, if any: nothing for a parse failure, a
   * rejected status, a directory that cannot be listed, or an output file
   * that cannot be opened (`refused`).
   */
  function Write(f: XmlFile, refused: set<string>): (w: Append)
    ensures w.Some? ==> f.parsed.Some? && f.siblings.Some? && w.value.0 !in refused
  {
    match f.parsed
    case None => None
    case Some(doc) =>
      if !Accepted(doc) then None
      else
        var name := CsvName(GroupingKey(doc, Stem(f.name)));
        match f.siblings
        case None => None
        case Some(listing) =>
          if name in refused then None
          else Some((name, BuildRow(doc, PdfPages.PageCount(listing, f.pdfPages))))
  }

  /**
   * A file appends a row exactly when it parsed, its status is accepted,
   * its directory can be listed and the file of its key can be opened; the
   * row is the full row of the document and goes to the file of its key.
   */
  lemma WriteGates(f: XmlFile, refused: set<string>)
    ensures Write(f, refused).Some? <==>
              && f.parsed.Some?
              && Accepted(f.parsed.value)
              && f.siblings.Some?
              && CsvName(GroupingKey(f.parsed.value, Stem(f.name))) !in refused
    ensures Write(f, refused).Some? ==>
              && Write(f, refused).value.0 == CsvName(GroupingKey(f.parsed.value, Stem(f.name)))
              && Write(f, refused).value.1 == BuildRow(f.parsed.value, PdfPages.PageCount(f.siblings.value, f.pdfPages))
              && |Write(f, refused).value.1| == Width
  {
  }


  /** The appends of a batch, one per file, in discovery order. */
  function Writes(files: seq<XmlFile>, refused: set<string>): (ws: seq<Append>)
    ensures |ws| == |files|
    ensures forall i :: 0 <= i < |files| ==> ws[i] == Write(files[i], refused)
  {
    seq(|files|, i requires 0 <= i < |files| => Write(files[i], refused))
  }

  /** The output directory after one append. */
  function Step(out: Output, w: Append): (next: Output)
    ensures w.Some? ==> Contents(next, w.value.0) == Contents(out, w.value.0) + [w.value.1]
    ensures forall name :: (w.None? || name != w.value.0) ==> Contents(next, name) == Contents(out, name)
    ensures forall name :: name in out ==> name in next && out[name] <= next[name]
  {
    match w
    case None => out
    case Some((name, row)) => out[name := Contents(out, name) + [row]]
  }

  /** The output directory after a sequence of appends, in order. */
  function Apply(out: Output, ws: seq<Append>): (next: Output)
    ensures forall name :: name in out ==> name in next && out[name] <= next[name]
  {
    if ws == [] then out else Step(Apply(out, ws[..|ws| - 1]), ws[|ws| - 1])
  }

  /** The output directory after the files, visited in discovery order. */
  function Process(out: Output, files: seq<XmlFile>, refused: set<string>): (next: Output)
    ensures forall name :: name in out ==> name in next && out[name] <= next[name]
  {
    Apply(out, Writes(files, refused))
  }

  /** Processing one more file is one more step. */
  lemma ProcessStep(out: Output, files: seq<XmlFile>, f: XmlFile, refused: set<string>)
    ensures Process(out, files + [f], refused) == Step(Process(out, files, refused), Write(f, refused))
  {
    var ws := Writes(files + [f], refused);
    assert ws[..|files|] == Writes(files, refused);
    assert ws[|files|] == Write(f, refused);
  }

  /** The rows a sequence of appends adds to `name`, in order. */
  function AppendedTo(ws: seq<Append>, name: string): (rows: seq<Row>)
    ensures |rows| <= |ws|
  {
    if ws == [] then []
    else
      var w := ws[|ws| - 1];
      AppendedTo(ws[..|ws| - 1], name) + if w.Some? && w.value.0 == name then [w.value.1] else []
  }

  /** The rows the files append to `name`, in discovery order. */
  function Appended(files: seq<XmlFile>, name: string, refused: set<string>): (rows: seq<Row>)
    ensures |rows| <= |files|
  {
    AppendedTo(Writes(files, refused), name)
  }

  /** Every row appended for a batch of files is a full row. */
  lemma {:induction false} AppendedRowsAreFull(files: seq<XmlFile>, name: string, refused: set<string>)
    ensures forall r :: r in Appended(files, name, refused) ==> |r| == Width
  {
    var ws := Writes(files, refused);
    forall k | 0 <= k < |ws| && ws[k].Some?
      ensures |ws[k].value.1| == Width
    {
      WriteGates(files[k], refused);
    }
    AppendedToFull(ws, name);
  }

  lemma {:induction false} AppendedToFull(ws: seq<Append>, name: string)
    requires forall k :: 0 <= k < |ws| && ws[k].Some? ==> |ws[k].value.1| == Width
    ensures forall r :: r in AppendedTo(ws, name) ==> |r| == Width
  {
    if ws != [] {
      AppendedToFull(ws[..|ws| - 1], name);
    }
  }

  /**
   * Appending only: each file of the output directory ends with its old
   * rows followed by the rows appended to it, in order; a file nothing is
   * appended to is untouched.
   */
  lemma {:induction false} ApplyAppends(out: Output, ws: seq<Append>, name: string)
    ensures Contents(Apply(out, ws), name) == Contents(out, name) + AppendedTo(ws, name)
    ensures name in Apply(out, ws) <==> name in out || AppendedTo(ws, name) != []
  {
    if ws != [] {
      ApplyAppends(out, ws[..|ws| - 1], name);
    }
  }

  /**
   * Processing a batch only appends: every output file ends with its old
   * rows followed by the rows the batch wrote to it, in discovery order,
   * and a file no document wrote to keeps its contents.
   */
  lemma ProcessAppends(out: Output, files: seq<XmlFile>, refused: set<string>, name: string)
    ensures Contents(Process(out, files, refused), name) == Contents(out, name) + Appended(files, name, refused)
    ensures name in Process(out, files, refused) <==> name in out || Appended(files, name, refused) != []
    ensures Appended(files, name, refused) == [] ==>
              (name in out <==> name in Process(out, files, refused))
              && Contents(Process(out, files, refused), name) == Contents(out, name)
  {
    ApplyAppends(out, Writes(files, refused), name);
  }

  /** The rows appended by a sequence are those of its parts, one after the other. */
  lemma {:induction false} AppendedConcat(a: seq<Append>, b: seq<Append>, name: string)
    ensures AppendedTo(a + b, name) == AppendedTo(a, name) + AppendedTo(b, name)
  {
    if b == [] {
      assert a + b == a;
    } else {
      assert (a + b)[..|a + b| - 1] == a + b[..|b| - 1];
      AppendedConcat(a, b[..|b| - 1], name);
    }
  }

  /** Dropping an empty append changes nothing that is appended. */
  lemma SkipEmptyAppend(ws: seq<Append>, i: nat, name: string)
    requires i < |ws| && ws[i].None?
    ensures AppendedTo(ws, name) == AppendedTo(ws[..i] + ws[i + 1..], name)
  {
    var pre, post := ws[..i], ws[i + 1..];
    assert ws == (pre + [ws[i]]) + post;
    AppendedConcat(pre + [ws[i]], post, name);
    NoneAppendsNothing(pre, ws[i], name);
    AppendedConcat(pre, post, name);
  }

  /** An empty append adds no row. */
  lemma NoneAppendsNothing(ws: seq<Append>, w: Append, name: string)
    requires w.None?
    ensures AppendedTo(ws + [w], name) == AppendedTo(ws, name)
  {
    assert (ws + [w])[..|ws|] == ws;
  }

  /**
   * A file that fails or is skipped contributes nothing, and the files
   * after it append exactly what they would append without it.
   */
  lemma FailureIsolated(files: seq<XmlFile>, i: nat, name: string, refused: set<string>)
    requires i < |files| && Write(files[i], refused).None?
    ensures Appended(files, name, refused) == Appended(files[..i] + files[i + 1..], name, refused)
  {
    WritesSplice(files, i, refused);
    SkipEmptyAppend(Writes(files, refused), i, name);
  }

  lemma WritesSplice(files: seq<XmlFile>, i: nat, refused: set<string>)
    requires i < |files|
    ensures Writes(files[..i] + files[i + 1..], refused) == Writes(files, refused)[..i] + Writes(files, refused)[i + 1..]
  {
    var ws := Writes(files, refused);
    var rest := files[..i] + files[i + 1..];
    forall k | 0 <= k < |rest|
      ensures Writes(rest, refused)[k] == (ws[..i] + ws[i + 1..])[k]
    {
      if k < i { assert rest[k] == files[k]; } else { assert rest[k] == files[k + 1]; }
    }
  }

  /** The number of appends in `ws` that go to `name`. */
  lemma {:induction false} AppendedCount(ws: seq<Append>, name: string)
    ensures |AppendedTo(ws, name)| == |set i | 0 <= i < |ws| && ws[i].Some? && ws[i].value.0 == name|
  {
    var s := set i | 0 <= i < |ws| && ws[i].Some? && ws[i].value.0 == name;
    if ws != [] {
      var n := |ws| - 1;
      var init := ws[..n];
      AppendedCount(init, name);
      var s' := set i | 0 <= i < n && ws[i].Some? && ws[i].value.0 == name;
      assert s' == set i | 0 <= i < |init| && init[i].Some? && init[i].value.0 == name;
      if ws[n].Some? && ws[n].value.0 == name {
        assert |AppendedTo(ws, name)| == |AppendedTo(init, name)| + 1;
        assert n !in s';
        assert s == s' + {n};
      } else {
        assert |AppendedTo(ws, name)| == |AppendedTo(init, name)|;
        assert s == s';
      }
    }
  }

  /** Each accepted, writable document adds exactly one row, to the file of its key. */
  lemma OneRowPerAcceptedDocument(files: seq<XmlFile>, name: string, refused: set<string>)
    ensures |Appended(files, name, refused)| ==
              |set i | 0 <= i < |files| && Write(files[i], refused).Some? && Write(files[i], refused).value.0 == name|
  {
    var ws := Writes(files, refused);
    AppendedCount(ws, name);
    assert (set i | 0 <= i < |ws| && ws[i].Some? && ws[i].value.0 == name)
        == (set i | 0 <= i < |files| && Write(files[i], refused).Some? && Write(files[i], refused).value.0 == name);
  }

  /**
   * Two accepted documents with the same key, processed in this order,
   * leave two rows in that key's file, the first document's row first.
   */
  lemma SameKeyMerges(out: Output, f1: XmlFile, f2: XmlFile, refused: set<string>)
    requires Write(f1, refused).Some? && Write(f2, refused).Some?
    requires Write(f1, refused).value.0 == Write(f2, refused).value.0
    ensures var name := Write(f1, refused).value.0;
            Contents(Process(out, [f1, f2], refused), name)
              == Contents(out, name) + [Write(f1, refused).value.1, Write(f2, refused).value.1]
  {
    var w1, w2 := Write(f1, refused), Write(f2, refused);
    WritesOfTwo(f1, f2, refused);
    TwoAppends(out, w1.value.0, w1.value.1, w2.value.1);
  }

  lemma WritesOfTwo(f1: XmlFile, f2: XmlFile, refused: set<string>)
    ensures Writes([f1, f2], refused) == [Write(f1, refused), Write(f2, refused)]
  {
  }

  lemma TwoAppends(out: Output, name: string, r1: Row, r2: Row)
    ensures Contents(Apply(out, [Some((name, r1)), Some((name, r2))]), name) == Contents(out, name) + [r1, r2]
  {
    var ws: seq<Append> := [Some((name, r1)), Some((name, r2))];
    ApplyAppends(out, ws, name);
    assert AppendedTo(ws[..1], name) == [r1] by {
      assert ws[..1][..0] == [];
    }
  }

  /** The row of a minimal document: only the application number is filled in. */
  lemma MinimalRow(number: string, pages: nat)
    requires Trimmed(number)
    ensures var doc := map[StatusQuery := Node(Some(UnexaminedPublication), [], None),
                           ApplicationNumberQuery := Node(Some(number), [], None)];
            && BuildRow(doc, pages)[ApplicationNumberColumn] == Str(number)
            && (forall j :: 3 <= j < Width && j != PageColumn && j != ApplicationNumberColumn ==>
                  BuildRow(doc, pages)[j] == Str(""))
  {
    var doc := map[StatusQuery := Node(Some(UnexaminedPublication), [], None),
                   ApplicationNumberQuery := Node(Some(number), [], None)];
    var row := BuildRow(doc, pages);
    TrimmedTextReadsBack(number, [], None);
    SchemaShape();
    EmptyDocumentRow(pages);
    forall j | 3 <= j < Width && j != PageColumn && j != ApplicationNumberColumn
      ensures row[j] == Str("")
    {
      OnlyColumnFiveReadsApplicationNumber(j);
      assert ReadsDocument(Schema[j]) ==> Find(doc, Schema[j].query) == Find(map[], Schema[j].query);
      assert row[j] == Eval(Schema[j], doc, pages);
      assert BuildRow(map[], pages)[j] == Eval(Schema[j], map[], pages);
    }
  }

  /** Processing one file that appends `row` to `name` into an empty directory. */
  lemma SingleAppend(name: string, row: Row)
    ensures Apply(map[], [Some((name, row))]) == map[name := [row]]
  {
    var ws: seq<Append> := [Some((name, row))];
    assert ws[..0] == [];
    assert Apply(map[], ws) == Step(map[], ws[0]);
    assert Contents(map[], name) + [row] == [row];
  }

  /** The single append of a minimal accepted document. */
  lemma MinimalWrite(number: string, file: XmlFile)
    requires number != "" && Trimmed(number)
    requires file.siblings.Some?
    requires file.parsed == Some(map[StatusQuery := Node(Some(UnexaminedPublication), [], None),
                                     ApplicationNumberQuery := Node(Some(number), [], None)])
    ensures Write(file, {}) == Some((number + ".csv", BuildRow(file.parsed.value, PdfPages.PageCount(file.siblings.value, file.pdfPages))))
  {
    var doc := file.parsed.value;
    assert StatusQuery != ApplicationNumberQuery by {
      assert |StatusQuery.xpath| != |ApplicationNumberQuery.xpath|;
    }
    assert doc[StatusQuery] == Node(Some(UnexaminedPublication), [], None);
    assert doc[ApplicationNumberQuery] == Node(Some(number), [], None);
    TrimmedTextReadsBack(UnexaminedPublication, [], None);
    assert Status(doc) == UnexaminedPublication;
    assert Accepted(doc);
    assert FindText(doc, ApplicationNumberQuery) == Some(number);
    assert CsvName(GroupingKey(doc, Stem(file.name))) == number + ".csv";
  }

  /**
   * A minimal accepted document with an application number and nothing
   * else, processed into an empty directory, yields exactly one file,
   * `<number>.csv`, holding exactly one row.
   */
  lemma MinimalDocument(number: string, file: XmlFile)
    requires number != "" && Trimmed(number)
    requires file.siblings.Some?
    requires file.parsed == Some(map[StatusQuery := Node(Some(UnexaminedPublication), [], None),
                                     ApplicationNumberQuery := Node(Some(number), [], None)])
    ensures Process(map[], [file], {})
              == map[number + ".csv" := [BuildRow(file.parsed.value, PdfPages.PageCount(file.siblings.value, file.pdfPages))]]
  {
    MinimalWrite(number, file);
    var row := BuildRow(file.parsed.value, PdfPages.PageCount(file.siblings.value, file.pdfPages));
    SingleAppend(number + ".csv", row);
    assert Writes([file], {}) == [Some((number + ".csv", row))];
  }

  /** Only the application-number column reads the application number; no column reads the status. */
  lemma OnlyColumnFiveReadsApplicationNumber(j: nat)
    requires j < Width && j != ApplicationNumberColumn
    ensures ReadsDocument(Schema[j]) ==> Schema[j].query != ApplicationNumberQuery && Schema[j].query != StatusQuery
  {
    SchemaLayout();
    if j < 14 {
      assert Schema[j] == Bibliographic[j];
      BibliographicAvoidsKeyQueries(j);
    } else if j < 98 {
      var g := if j < 50 then Applicant else if j < 74 then Agent else Inventor;
      BlockEntries(g);
      assert Schema[j] == PartyBlock(g)[j - GroupBase(g)];
    } else {
      assert Schema[j] == LongTexts[j - 98];
      LongTextsAvoidKeyQueries(j - 98);
    }
  }

  lemma BibliographicAvoidsKeyQueries(j: nat)
    requires j < |Bibliographic| && j != ApplicationNumberColumn
    ensures ReadsDocument(Bibliographic[j]) ==>
      Bibliographic[j].query != ApplicationNumberQuery && Bibliographic[j].query != StatusQuery
  {
  }

  lemma LongTextsAvoidKeyQueries(t: nat)
    requires t < |LongTexts|
    ensures LongTexts[t].query != ApplicationNumberQuery && LongTexts[t].query != StatusQuery
  {
  }

  /**
   * The output directory of a run.  `files` maps each CSV file name to its
   * rows; a run only ever appends to it.
   */
  class Extractor {
    var files: Output

    constructor (existing: Output)
      ensures files == existing
    {
      files := existing;
    }

    /** Opens `<name>` in append mode and writes one row. */
    method AppendRow(name: string, row: Row)
      modifies this
      ensures files == old(files)[name := Contents(old(files), name) + [row]]
    {
      files := files[name := Contents(files, name) + [row]];
    }

    /**
     * The body of the loop of `xml_to_csv` for one file.  `refused` holds
     * the output files the file system will not open; such a file, like a
     * parse failure, only loses that document's row.
     */
    method ProcessFile(f: XmlFile, refused: set<string>)
      modifies this
      ensures files == Step(old(files), Write(f, refused))
    {
      match f.parsed {
        case None =>
        case Some(doc) =>
          var status := SafeGetText(Find(doc, StatusQuery), "");
          if status == UnexaminedPublication || status == NationalPublication {
            var key := GroupingKey(doc, Stem(f.name));
            var name := CsvName(key);
            match f.siblings {
              case None =>
              case Some(listing) =>
                var pages := PdfPages.PageCount(listing, f.pdfPages);
                if name !in refused {
                  var row := BuildRow(doc, pages);
                  AppendRow(name, row);
                }
            }
          }
      }
    }

    /** The loop of `xml_to_csv` over the discovered files, in discovery order. */
    method Run(batch: seq<XmlFile>, refused: set<string>)
      modifies this
      ensures files == Process(old(files), batch, refused)
      ensures forall name :: Contents(files, name) == Contents(old(files), name) + Appended(batch, name, refused)
    {
      for i := 0 to |batch|
        invariant files == Process(old(files), batch[..i], refused)
      {
        ProcessStep(old(files), batch[..i], batch[i], refused);
        assert batch[..i] + [batch[i]] == batch[..i + 1];
        ProcessFile(batch[i], refused);
      }
      assert batch[..|batch|] == batch;
      forall name
        ensures Contents(files, name) == Contents(old(files), name) + Appended(batch, name, refused)
      {
        ProcessAppends(old(files), batch, refused, name);
      }
    }
  }
}
