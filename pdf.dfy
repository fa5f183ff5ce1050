/**
 * The file-count rule of `get_pdf_page_count`: a directory yields a page
 * count only when it holds exactly one file whose lower-cased name ends in
 * ".pdf".  Reading the PDF itself is outside the model; its outcome is an
 * input (`None` when opening or parsing the file raised).
 */
module PdfPages {
  import opened Wrappers

  /** `c.lower()` for ASCII letters. */
  function Lower(c: char): (l: char)
    ensures 'A' <= c <= 'Z' ==> l as int == c as int + 32
    ensures !('A' <= c <= 'Z') ==> l == c
  {
    if 'A' <= c <= 'Z' then (c as int + 32) as char else c
  }

  /** `s.lower()` for ASCII letters. */
  function LowerString(s: string): (l: string)
    ensures |l| == |s| && forall i :: 0 <= i < |s| ==> l[i] == Lower(s[i])
  {
    seq(|s|, i requires 0 <= i < |s| => Lower(s[i]))
  }

  /** `name.lower().endswith('.pdf')`, decided on the last four characters. */
  predicate IsPdfName(name: string)
    ensures IsPdfName(name) <==> |name| >= 4 && LowerString(name)[|name| - 4..] == ".pdf"
  {
    && |name| >= 4
    && name[|name| - 4] == '.'
    && Lower(name[|name| - 3]) == 'p'
    && Lower(name[|name| - 2]) == 'd'
    && Lower(name[|name| - 1]) == 'f'
  }

  /** The extension test ignores letter case. */
  lemma PdfNameIgnoresCase(stem: string)
    ensures IsPdfName(stem + ".pdf") && IsPdfName(stem + ".PDF") && IsPdfName(stem + ".Pdf")
    ensures !IsPdfName(stem + ".pd") && !IsPdfName(stem + ".xml")
  {
  }

  /** The list comprehension over `os.listdir(directory)`: the PDF names, in listing order. */
  function PdfFiles(listing: seq<string>): (pdfs: seq<string>)
    ensures |pdfs| <= |listing|
    ensures forall f :: f in pdfs ==> f in listing && IsPdfName(f)
    ensures forall f :: f in listing && IsPdfName(f) ==> f in pdfs
  {
    if listing == [] then []
    else (if IsPdfName(listing[0]) then [listing[0]] else []) + PdfFiles(listing[1..])
  }

  /**
   * `get_pdf_page_count(directory)` once the directory has been listed,
   * given that listing and the outcome of reading its one PDF.  From here
   * on it never raises: every case other than one PDF read successfully
   * gives 0.  Listing the directory can raise; that case is handled by the
   * caller (`Extraction.Write`).
   */
  function PageCount(listing: seq<string>, read: Option<nat>): (n: nat)
    ensures |PdfFiles(listing)| != 1 ==> n == 0
    ensures read.None? ==> n == 0
    ensures n != 0 ==> |PdfFiles(listing)| == 1 && read == Some(n)
    ensures |PdfFiles(listing)| == 1 && read.Some? ==> n == read.value
  {
    if |PdfFiles(listing)| != 1 then 0 else read.GetOr(0)
  }

  /** Every PDF at or after position `i` of the listing is among the PDFs of `listing[i..]`. */
  lemma {:induction false} PdfFilesCount(listing: seq<string>, i: nat, j: nat)
    requires i < j < |listing|
    requires IsPdfName(listing[i]) && IsPdfName(listing[j])
    ensures |PdfFiles(listing)| >= 2
  {
    if i == 0 {
      assert listing[j] in listing[1..];
      assert |PdfFiles(listing[1..])| >= 1;
    } else {
      PdfFilesCount(listing[1..], i - 1, j - 1);
    }
  }

  /** Two PDF files in one directory give 0 pages, whatever reading would report. */
  lemma TwoPdfsGiveZero(listing: seq<string>, i: nat, j: nat, read: Option<nat>)
    requires i < j < |listing|
    requires IsPdfName(listing[i]) && IsPdfName(listing[j])
    ensures PageCount(listing, read) == 0
  {
    PdfFilesCount(listing, i, j);
  }

  lemma {:induction false} NoPdfs(listing: seq<string>)
    requires forall k :: 0 <= k < |listing| ==> !IsPdfName(listing[k])
    ensures PdfFiles(listing) == []
  {
    if listing != [] {
      NoPdfs(listing[1..]);
    }
  }

  /** A directory without a PDF file gives 0 pages. */
  lemma NoPdfGivesZero(listing: seq<string>, read: Option<nat>)
    requires forall k :: 0 <= k < |listing| ==> !IsPdfName(listing[k])
    ensures PageCount(listing, read) == 0
  {
    NoPdfs(listing);
  }

  /** The single PDF of a directory gives the page count reading reports. */
  lemma {:induction false} SinglePdfGivesItsPages(listing: seq<string>, i: nat, pages: nat)
    requires i < |listing| && IsPdfName(listing[i])
    requires forall k :: 0 <= k < |listing| && k != i ==> !IsPdfName(listing[k])
    ensures PageCount(listing, Some(pages)) == pages
  {
    SinglePdfCount(listing, i);
  }

  lemma {:induction false} SinglePdfCount(listing: seq<string>, i: nat)
    requires i < |listing| && IsPdfName(listing[i])
    requires forall k :: 0 <= k < |listing| && k != i ==> !IsPdfName(listing[k])
    ensures |PdfFiles(listing)| == 1
  {
    if i == 0 {
      NoPdfs(listing[1..]);
    } else {
      SinglePdfCount(listing[1..], i - 1);
    }
  }
}
