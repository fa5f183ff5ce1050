/**
 * The fixed-shape row built for every accepted document: an ordered table
 * of extraction rules, one per column, evaluated against the document.
 */
module Rows {
  import opened Wrappers
  import opened Text
  import opened Xml
  import opened Fields

  /** Occurrences of each party group that have columns of their own. */
  const Capacity: nat := 12

  /** Number of cells in every row. */
  const Width: nat := 110

  const PublicationDateColumn: nat := 4
  const ApplicationNumberColumn: nat := 5
  const FilingDateColumn: nat := 6
  const PageColumn: nat := 10
  const LongTextBase: nat := 98

  /** A CSV cell: a string, or the page count, which the source writes as an integer. */
  datatype Cell = Str(s: string) | Count(n: nat)

  type Row = seq<Cell>

  /** How one column is computed. */
  datatype Rule =
    | Literal(value: string)            // a constant
    | Field(query: Query, sep: string)  // safe_get_text(query, sep)
    | Date(query: Query)                // safe_get_text(query).replace("-", "")
    | Pages                             // the page count of the sibling PDF

  const ApplicationNumberQuery := Path(".//com:ApplicationNumber/com:ApplicationNumberText")
  const NationalClassificationQuery :=
    Path(".//jppat:UnexaminedPatentPublicationBibliographicData/jppat:NationalClassification")
  const ThemeCodeQuery := Path(".//jppat:ThemeCodeInformationBag/jppat:ThemeCodeInformation")
  const FtermQuery := Path(".//jppat:FtermInformationBag/jppat:FtermInformation")

  /** Separator of the national (FI) classification column. */
  const ClassificationSeparator := "      "

  /** Separator of the long-text columns. */
  const ParagraphSeparator := "    "

  /** Columns 0 to 13: markers, bibliographic data, page count, classifications. */
  const Bibliographic: seq<Rule> := [
    Literal("Z"),
    Literal("Y"),
    Literal("種別なし"),
    Field(Path(".//pat:PublicationNumber"), ""),
    Date(Path(".//com:PublicationDate")),
    Field(ApplicationNumberQuery, ""),
    Date(Path(".//jppat:ApplicationIdentification/pat:FilingDate")),
    Field(Path(".//pat:InventionTitle"), ""),
    Field(Path(".//jppat:IPCClassification/pat:MainClassification"), ""),
    Field(Path(".//jppat:ClaimTotalQuantitySet/pat:ClaimTotalQuantity"), ""),
    Pages,
    Field(NationalClassificationQuery, ClassificationSeparator),
    Field(ThemeCodeQuery, ""),
    Field(FtermQuery, "")
  ]

  /** Columns 98 to 109: the joined long texts. */
  const LongTexts: seq<Rule> := [
    Field(Path(".//pat:Abstract/com:P"), ParagraphSeparator),
    Field(Path(".//pat:Claims/pat:Claim/pat:ClaimText"), ParagraphSeparator),
    Field(Path(".//jppat:Description/pat:TechnicalField/com:P"), ParagraphSeparator),
    Field(Path(".//jppat:Description/pat:BackgroundArt/com:P"), ParagraphSeparator),
    Field(Path(".//com:CitationBag/com:PatentCitationBag/com:P/com:PatentCitation/com:PatentCitationText"), ParagraphSeparator),
    Field(Path(".//com:CitationBag/com:NPLCitationBag/com:P/com:NPLCitation/com:NPLCitationText"), ParagraphSeparator),
    Field(Path(".//pat:InventionSummary/pat:TechnicalProblem/com:P"), ParagraphSeparator),
    Field(Path(".//pat:InventionSummary/pat:TechnicalSolution/com:P"), ParagraphSeparator),
    Field(Path(".//pat:InventionSummary/pat:AdvantageousEffects/com:P"), ParagraphSeparator),
    Field(Path(".//pat:EmbodimentDescription/com:P"), ParagraphSeparator),
    Field(Path(".//pat:IndustrialApplicability/com:P"), ParagraphSeparator),
    Field(Path(".//pat:DrawingDescription/com:P/com:FigureReference"), ParagraphSeparator)
  ]

  /** The fields read in each occurrence of a group, in column order. */
  function GroupFields(g: Group): (fields: seq<PartyField>)
    ensures 2 <= |fields| <= 3
  {
    match g
    case Applicant => [PartyIdentifier, EntityName, PostalAddressText]
    case Agent => [RegistrationNumber, EntityName]
    case Inventor => [EntityName, PostalAddressText]
  }

  /** The first column of a group's block. */
  function GroupBase(g: Group): nat {
    match g
    case Applicant => 14
    case Agent => 50
    case Inventor => 74
  }

  /** The columns of one group: occurrence 1 to `Capacity`, each with the group's fields. */
  function PartyBlock(g: Group): (block: seq<Rule>)
    ensures |block| == Capacity * |GroupFields(g)|
  {
    var fields := GroupFields(g);
    seq(Capacity * |fields|, j requires 0 <= j < Capacity * |fields| =>
      Field(Slot(g, j / |fields| + 1, fields[j % |fields|]), ""))
  }

  /** The whole column table, in order. */
  const Schema: seq<Rule> :=
    Bibliographic + PartyBlock(Applicant) + PartyBlock(Agent) + PartyBlock(Inventor) + LongTexts

  /** The column of field `k` of occurrence `slot` of group `g`. */
  function SlotColumn(g: Group, slot: nat, k: nat): (column: nat)
    requires 1 <= slot <= Capacity && k < |GroupFields(g)|
    ensures GroupBase(g) <= column < GroupBase(g) + Capacity * |GroupFields(g)|
    ensures column < LongTextBase
  {
    var w := |GroupFields(g)|;
    assert w * (slot - 1) <= w * (Capacity - 1);
    GroupBase(g) + w * (slot - 1) + k
  }

  /** One cell. */
  function Eval(rule: Rule, doc: Document, pages: nat): (cell: Cell)
    ensures cell.Count? <==> rule.Pages?
    ensures rule.Literal? ==> cell == Str(rule.value)
    ensures rule.Date? ==> '-' !in cell.s
    ensures ReadsDocument(rule) && rule.query !in doc ==> cell == Str("")
  {
    match rule
    case Literal(v) => Str(v)
    case Field(q, sep) => Str(SafeGetText(Find(doc, q), sep))
    case Date(q) => Str(Without(SafeGetText(Find(doc, q), ""), '-'))
    case Pages => Count(pages)
  }

  /** The `data` list built for an accepted document. */
  function BuildRow(doc: Document, pages: nat): (row: Row)
    ensures |row| == Width
    ensures row[0] == Str("Z") && row[1] == Str("Y") && row[2] == Str("種別なし")
    ensures row[PageColumn] == Count(pages)
    ensures forall j :: 0 <= j < Width && j != PageColumn ==> row[j].Str?
    ensures row[PublicationDateColumn].Str? && '-' !in row[PublicationDateColumn].s
    ensures row[FilingDateColumn].Str? && '-' !in row[FilingDateColumn].s
    ensures row[ApplicationNumberColumn] == Str(SafeGetText(Find(doc, ApplicationNumberQuery), ""))
  {
    SchemaShape();
    seq(Width, j requires 0 <= j < Width => Eval(Schema[j], doc, pages))
  }

  /** Only column 10 holds the page count, and only columns 0 to 2 are constants. */
  lemma SchemaShape()
    ensures |Schema| == Width
    ensures Schema[0] == Literal("Z") && Schema[1] == Literal("Y") && Schema[2] == Literal("種別なし")
    ensures Schema[PageColumn] == Pages
    ensures Schema[PublicationDateColumn].Date? && Schema[FilingDateColumn].Date?
    ensures Schema[ApplicationNumberColumn] == Field(ApplicationNumberQuery, "")
    ensures forall j :: 0 <= j < Width && j != PageColumn ==> !Schema[j].Pages?
    ensures forall j :: 3 <= j < Width && j != PageColumn ==> Schema[j].Field? || Schema[j].Date?
  {
    SchemaLayout();
    PartyColumnsAreFields();
    LongTextColumnsAreFields();
  }

  /** Every party column reads one slot field. */
  lemma PartyColumnsAreFields()
    ensures forall j :: GroupBase(Applicant) <= j < LongTextBase ==> Schema[j].Field?
  {
    BibliographicPrefix();
    forall j | GroupBase(Applicant) <= j < LongTextBase
      ensures Schema[j].Field?
    {
      var g := if j < 50 then Applicant else if j < 74 then Agent else Inventor;
      BlockEntries(g);
      PartyBlockPlaced(g);
      assert Schema[j] == PartyBlock(g)[j - GroupBase(g)];
    }
  }

  /** Every long-text column reads one field. */
  lemma LongTextColumnsAreFields()
    ensures forall j :: LongTextBase <= j < Width ==> Schema[j].Field?
  {
    BibliographicPrefix();
    LongTextsPlaced();
    forall j | LongTextBase <= j < Width
      ensures Schema[j].Field?
    {
      assert Schema[j] == LongTexts[j - LongTextBase];
    }
  }

  /** The table is the bibliographic columns, the three party blocks and the long texts, in that order. */
  lemma SchemaLayout()
    ensures |Schema| == Width
    ensures Schema[..14] == Bibliographic
    ensures forall g, j :: 0 <= j < |PartyBlock(g)| ==> Schema[GroupBase(g) + j] == PartyBlock(g)[j]
    ensures forall t :: 0 <= t < |LongTexts| ==> Schema[LongTextBase + t] == LongTexts[t]
  {
    BibliographicPrefix();
    forall g
      ensures forall j :: 0 <= j < |PartyBlock(g)| ==> Schema[GroupBase(g) + j] == PartyBlock(g)[j]
    {
      PartyBlockPlaced(g);
    }
    LongTextsPlaced();
  }

  /** Columns 0-13 are the bibliographic block. */
  lemma BibliographicPrefix()
    ensures |Schema| == Width
    ensures Schema[..14] == Bibliographic
  {
  }

  /** A group's block starts at the group's base column. */
  lemma PartyBlockPlaced(g: Group)
    ensures forall j :: 0 <= j < |PartyBlock(g)| ==> Schema[GroupBase(g) + j] == PartyBlock(g)[j]
  {
    match g
    case Applicant => ApplicantsPlaced();
    case Agent => AgentsPlaced();
    case Inventor => InventorsPlaced();
  }

  /** The applicant triples occupy columns 14 to 49. */
  lemma ApplicantsPlaced()
    ensures forall j :: 0 <= j < |PartyBlock(Applicant)| ==> Schema[14 + j] == PartyBlock(Applicant)[j]
  {
    var back := PartyBlock(Agent) + PartyBlock(Inventor) + LongTexts;
    assert |Bibliographic| == 14;
    BlockAt(Bibliographic, PartyBlock(Applicant), back);
    assert Schema == Bibliographic + PartyBlock(Applicant) + back;
  }

  /** The agent pairs occupy columns 50 to 73. */
  lemma AgentsPlaced()
    ensures forall j :: 0 <= j < |PartyBlock(Agent)| ==> Schema[50 + j] == PartyBlock(Agent)[j]
  {
    var front := Bibliographic + PartyBlock(Applicant);
    assert |front| == 50;
    BlockAt(front, PartyBlock(Agent), PartyBlock(Inventor) + LongTexts);
    assert Schema == front + PartyBlock(Agent) + (PartyBlock(Inventor) + LongTexts);
  }

  /** The inventor pairs occupy columns 74 to 97. */
  lemma InventorsPlaced()
    ensures forall j :: 0 <= j < |PartyBlock(Inventor)| ==> Schema[74 + j] == PartyBlock(Inventor)[j]
  {
    var front := Bibliographic + PartyBlock(Applicant) + PartyBlock(Agent);
    assert |front| == 74;
    BlockAt(front, PartyBlock(Inventor), LongTexts);
  }

  /** The long texts start at column 98. */
  lemma LongTextsPlaced()
    ensures forall t :: 0 <= t < |LongTexts| ==> Schema[LongTextBase + t] == LongTexts[t]
  {
    var front := Bibliographic + PartyBlock(Applicant) + PartyBlock(Agent) + PartyBlock(Inventor);
    assert |front| == LongTextBase;
    BlockAt(front, LongTexts, []);
  }

  /** A block placed after `front` starts at column `|front|`. */
  lemma BlockAt(front: seq<Rule>, block: seq<Rule>, back: seq<Rule>)
    ensures forall j :: 0 <= j < |block| ==> (front + block + back)[|front| + j] == block[j]
    ensures forall j :: 0 <= j < |block| ==> (front + block)[|front| + j] == block[j]
  {
  }

  /** Every column of a party block reads one field of one occurrence 1 to 12 of that group. */
  lemma BlockEntries(g: Group)
    ensures forall j :: 0 <= j < |PartyBlock(g)| ==>
              && PartyBlock(g)[j].Field?
              && PartyBlock(g)[j].sep == ""
              && PartyBlock(g)[j].query.Slot?
              && PartyBlock(g)[j].query.group == g
              && 1 <= PartyBlock(g)[j].query.index <= Capacity
  {
  }

  /** Slot `slot` of a group always occupies the same columns, inside the group's block. */
  lemma SlotColumnRule(g: Group, slot: nat, k: nat)
    requires 1 <= slot <= Capacity && k < |GroupFields(g)|
    ensures Schema[SlotColumn(g, slot, k)] == Field(Slot(g, slot, GroupFields(g)[k]), "")
  {
    var j := |GroupFields(g)| * (slot - 1) + k;
    PartyBlockEntry(g, slot, k);
    assert SlotColumn(g, slot, k) == GroupBase(g) + j;
    SchemaPartyEntry(g, j);
  }

  lemma SchemaPartyEntry(g: Group, j: nat)
    requires j < |PartyBlock(g)|
    ensures Schema[GroupBase(g) + j] == PartyBlock(g)[j]
  {
    PartyBlockPlaced(g);
  }

  /** Entry `w * (slot - 1) + k` of a party block reads field `k` of occurrence `slot`. */
  lemma PartyBlockEntry(g: Group, slot: nat, k: nat)
    requires 1 <= slot <= Capacity && k < |GroupFields(g)|
    ensures |GroupFields(g)| * (slot - 1) + k < |PartyBlock(g)|
    ensures PartyBlock(g)[|GroupFields(g)| * (slot - 1) + k] == Field(Slot(g, slot, GroupFields(g)[k]), "")
  {
    var w := |GroupFields(g)|;
    var j := w * (slot - 1) + k;
    assert j / w == slot - 1 && j % w == k by {
      DivMod(w, slot - 1, k);
    }
    assert w * (slot - 1) <= w * (Capacity - 1);
  }

  lemma DivMod(w: nat, q: nat, k: nat)
    requires w == 2 || w == 3
    requires 0 <= k < w
    ensures (w * q + k) / w == q && (w * q + k) % w == k
  {
    if w == 2 {
      assert 2 * q + k == k + q * 2;
    } else {
      assert 3 * q + k == k + q * 3;
    }
  }

  /** The cell of field `k` of occurrence `slot` of group `g` reads exactly that field. */
  lemma SlotCell(doc: Document, pages: nat, g: Group, slot: nat, k: nat)
    requires 1 <= slot <= Capacity && k < |GroupFields(g)|
    ensures BuildRow(doc, pages)[SlotColumn(g, slot, k)]
         == Str(SafeGetText(Find(doc, Slot(g, slot, GroupFields(g)[k])), ""))
  {
    SlotColumnRule(g, slot, k);
  }

  /** Whether a column is computed from what a query finds. */
  predicate ReadsDocument(rule: Rule) {
    rule.Field? || rule.Date?
  }

  /**
   * The classification columns: the national classification joins its
   * text nodes with six spaces; the theme code and F-term columns pass the
   * empty separator and so read only the element's own text.
   */
  lemma ClassificationCells(doc: Document, pages: nat)
    ensures BuildRow(doc, pages)[11] == Str(SafeGetText(Find(doc, NationalClassificationQuery), ClassificationSeparator))
    ensures BuildRow(doc, pages)[12] == Str(SafeGetText(Find(doc, ThemeCodeQuery), ""))
    ensures BuildRow(doc, pages)[13] == Str(SafeGetText(Find(doc, FtermQuery), ""))
  {
    BibliographicPrefix();
    assert Schema[11] == Bibliographic[11];
    assert Schema[12] == Bibliographic[12];
    assert Schema[13] == Bibliographic[13];
  }

  /**
   * Long text `t` (0 to 11) sits in column 98 + t.  It reads the one
   * element `find` returns for its path (the first match only, so the first
   * paragraph or claim), joins the text nodes inside that element with four
   * spaces and holds no newline.
   */
  lemma LongTextCell(doc: Document, pages: nat, t: nat)
    requires t < |LongTexts|
    ensures LongTextBase + t < Width
    ensures BuildRow(doc, pages)[LongTextBase + t] == Str(SafeGetText(Find(doc, LongTexts[t].query), ParagraphSeparator))
    ensures '\n' !in BuildRow(doc, pages)[LongTextBase + t].s
  {
    BibliographicPrefix();
    LongTextsPlaced();
    assert Schema[LongTextBase + t] == LongTexts[t];
    assert LongTexts[t].Field? && LongTexts[t].sep == ParagraphSeparator;
  }

  /** No column reads an occurrence of a party group beyond the twelfth. */
  lemma SlotsWithinCapacity()
    ensures forall j :: 0 <= j < Width && ReadsDocument(Schema[j]) && Schema[j].query.Slot? ==>
              1 <= Schema[j].query.index <= Capacity
  {
    SchemaLayout();
    forall j | 14 <= j < 98
      ensures Schema[j].Field? && Schema[j].query.Slot? && 1 <= Schema[j].query.index <= Capacity
    {
      var g := if j < 50 then Applicant else if j < 74 then Agent else Inventor;
      BlockEntries(g);
      PartyBlockPlaced(g);
      assert Schema[j] == PartyBlock(g)[j - GroupBase(g)];
    }
  }

  /** A row depends on nothing but what the column queries find. */
  lemma RowDependsOnlyOnColumnQueries(d1: Document, d2: Document, pages: nat)
    requires forall j :: 0 <= j < |Schema| && ReadsDocument(Schema[j]) ==>
               Find(d1, Schema[j].query) == Find(d2, Schema[j].query)
    ensures BuildRow(d1, pages) == BuildRow(d2, pages)
  {
    SchemaShape();
    var r1, r2 := BuildRow(d1, pages), BuildRow(d2, pages);
    forall j | 0 <= j < Width
      ensures r1[j] == r2[j]
    {
      assert r1[j] == Eval(Schema[j], d1, pages);
    }
  }

  /**
   * A thirteenth (or later) occurrence of a party group is silently lost:
   * whatever it holds, the row is the same and no column shifts.
   */
  lemma ExtraOccurrenceIgnored(doc: Document, pages: nat, g: Group, index: nat, f: PartyField, e: Node)
    requires index > Capacity
    ensures BuildRow(doc[Slot(g, index, f) := e], pages) == BuildRow(doc, pages)
  {
    SlotsWithinCapacity();
    SchemaShape();
    RowDependsOnlyOnColumnQueries(doc[Slot(g, index, f) := e], doc, pages);
  }

  /**
   * A document in which no query finds anything still yields a full row:
   * the constants, the page count and an empty string in every other cell.
   */
  lemma EmptyDocumentRow(pages: nat)
    ensures forall j :: 3 <= j < Width && j != PageColumn ==> BuildRow(map[], pages)[j] == Str("")
  {
    SchemaShape();
    forall j | 3 <= j < Width && j != PageColumn
      ensures BuildRow(map[], pages)[j] == Str("")
    {
      assert BuildRow(map[], pages)[j] == Eval(Schema[j], map[], pages);
      assert Without("", '-') == "";
    }
  }
}
