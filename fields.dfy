/** The field reader `safe_get_text` of the extraction stage. */
module Fields {
  import opened Wrappers
  import opened Text
  import opened Xml

  /**
   * `safe_get_text(xpath, join_text)` applied to what `find(xpath)` found.
   * Nothing found reads as "", whatever the separator.  With the empty
   * separator (falsy in Python) only the element's own text is read and
   * stripped.  With a non-empty separator all text nodes of the element and
   * its descendants are joined by it, every newline is removed and the
   * result is stripped.
   */
  function SafeGetText(found: Option<Node>, sep: string): (r: string)
    ensures Trimmed(r)
    ensures found.None? ==> r == ""
    ensures found.Some? && sep == "" && found.value.text.None? ==> r == ""
    ensures found.Some? && sep == "" && found.value.text.Some? ==> StripsTo(found.value.text.value, r)
    ensures found.Some? && sep != "" ==> StripsTo(Without(Join(ItText(found.value), sep), '\n'), r)
    ensures sep != "" ==> '\n' !in r
  {
    match found
    case None => ""
    case Some(e) =>
      if sep != "" then Strip(Without(Join(ItText(e), sep), '\n'))
      else if e.text.Some? && e.text.value != "" then Strip(e.text.value)
      else
        assert e.text.Some? ==> StripsTo(e.text.value, "") by {
          if e.text.Some? {
            var s := e.text.value;
            assert s[0..0] == "" && s[..0] == s && s[0..] == s;
            assert PaddedAt(s, 0, "");
          }
        }
        ""
  }

  /**
   * With the empty separator the descendants of the element are never read:
   * elements with the same own text give the same cell.
   */
  lemma DirectTextOnly(e: Node, children: seq<Node>, tail: Option<string>)
    ensures SafeGetText(Some(e), "") == SafeGetText(Some(Node(e.text, children, tail)), "")
  {
  }

  /**
   * With a non-empty separator, the cell of an element without any text
   * node is "": the separator is never returned as a placeholder.
   */
  lemma {:induction false} NoTextNodesReadsEmpty(e: Node, sep: string)
    requires ItText(e) == []
    ensures SafeGetText(Some(e), sep) == ""
  {
    if sep != "" {
      assert Join(ItText(e), sep) == "";
      assert Without("", '\n') == "";
      StripOfTrimmed("");
    }
  }

  /**
   * For a childless element whose text has no newline, the separator makes
   * no difference: joining reads the same single text node.
   */
  lemma {:induction false} LeafIgnoresSeparator(t: string, tail: Option<string>, sep: string)
    requires t != "" && '\n' !in t
    ensures SafeGetText(Some(Node(Some(t), [], tail)), sep) == Strip(t)
  {
    if sep != "" {
      ItTextOfLeaf(t, tail);
      JoinSingle(t, sep);
      WithoutAbsent(t, '\n');
    }
  }

  /** A text that is already trimmed is read back unchanged. */
  lemma {:induction false} TrimmedTextReadsBack(t: string, children: seq<Node>, tail: Option<string>)
    requires Trimmed(t)
    ensures SafeGetText(Some(Node(Some(t), children, tail)), "") == t
  {
    if t != "" {
      StripOfTrimmed(t);
    }
  }
}
