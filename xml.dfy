/**
 * The parsed document as the extraction stage sees it.  The XML parser and
 * XPath evaluation are not modelled: a document is an uninterpreted lookup
 * from the queries the stage asks to the element each query finds.
 */
module Xml {
  import opened Wrappers

  /**
   * An ElementTree element: its own text (`None` when the element has no
   * text), its children in document order, and its tail, the text that
   * follows its end tag inside the parent.
   */
  datatype Node = Node(text: Option<string>, children: seq<Node>, tail: Option<string>)

  /** The text, as a one-part list, when it is present and non-empty. */
  function Part(t: Option<string>): (parts: seq<string>)
    ensures forall i :: 0 <= i < |parts| ==> parts[i] != ""
  {
    if t.Some? && t.value != "" then [t.value] else []
  }

  /**
   * `element.itertext()`: the element's own text, then for every child the
   * child's text nodes followed by the child's tail, skipping empty texts.
   * The element's own tail is not part of it.
   */
  function ItText(n: Node): (parts: seq<string>)
    ensures forall i :: 0 <= i < |parts| ==> parts[i] != ""
    decreases n, 1
  {
    Part(n.text) + ChildrenText(n.children)
  }

  function ChildrenText(cs: seq<Node>): (parts: seq<string>)
    ensures forall i :: 0 <= i < |parts| ==> parts[i] != ""
    decreases cs, 0
  {
    if cs == [] then [] else ItText(cs[0]) + Part(cs[0].tail) + ChildrenText(cs[1..])
  }

  /** An element without children yields only its own text. */
  lemma ItTextOfLeaf(t: string, tail: Option<string>)
    requires t != ""
    ensures ItText(Node(Some(t), [], tail)) == [t]
  {
  }

  /** When the element has non-empty text, that text is the first text node. */
  lemma ItTextStartsWithOwnText(n: Node)
    requires n.text.Some? && n.text.value != ""
    ensures |ItText(n)| > 0 && ItText(n)[0] == n.text.value
  {
  }

  /** The repeated party groups of a patent publication. */
  datatype Group = Applicant | Agent | Inventor

  /** The party fields read inside one occurrence of a group. */
  datatype PartyField = PartyIdentifier | RegistrationNumber | EntityName | PostalAddressText

  /**
   * A query against the document: a fixed path, or field `field` of the
   * `index`-th (1-based) occurrence of a party group, which the source
   * writes as the group's path with the positional predicate `[index]`
   * followed by the field's path, e.g.
   * `.//jppat:InventorBag/jppat:Inventor[12]/jpcom:Contact/com:Name/com:EntityName`.
   */
  datatype Query = Path(xpath: string) | Slot(group: Group, index: nat, field: PartyField)

  /** What each query finds in one parsed file; a query that is not a key finds nothing. */
  type Document = map<Query, Node>

  /** `elem.find(xpath)`. */
  function Find(doc: Document, q: Query): (found: Option<Node>)
    ensures found.Some? <==> q in doc
    ensures found.Some? ==> found.value == doc[q]
  {
    if q in doc then Some(doc[q]) else None
  }

  /**
   * `elem.findtext(xpath)`: `None` when nothing is found, otherwise the
   * element's own text, unstripped, or "" when it has none.
   */
  function FindText(doc: Document, q: Query): (t: Option<string>)
    ensures t.None? <==> q !in doc
    ensures q in doc && doc[q].text.Some? ==> t == doc[q].text
    ensures q in doc && doc[q].text.None? ==> t == Some("")
  {
    match Find(doc, q)
    case None => None
    case Some(e) => Some(e.text.GetOr(""))
  }
}
