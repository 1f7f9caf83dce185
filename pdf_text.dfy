/**
 * The page and paragraph formatting of `PDFParser.extract_text`: the text of each page, as the
 * PDF library extracts it, becomes markdown, one heading or paragraph line per blank-line
 * paragraph, with a horizontal rule before every non-blank page but the first.
 */
module PdfText {
  import opened Strings

  /** The rule written before every non-blank page whose index is not 0. */
  const PageBreak: string := "\n---\n"

  /** A paragraph is rendered as a heading when it is one line, under 100 characters and upper case. */
  predicate IsHeadingParagraph(para: string) {
    |Split(para, "\n")| == 1 && |para| < 100 && IsUpper(para)
  }

  /**
   * The markdown of one paragraph: `"## " + para + "\n"` for a heading, otherwise the paragraph
   * with its line breaks turned into spaces, followed by a blank line.
   */
  function FormatParagraph(para: string): (r: string)
    ensures |r| == |para| + (if IsHeadingParagraph(para) then 4 else 2)
  {
    if IsHeadingParagraph(para) then "## " + para + "\n" else ReplaceChar(para, '\n', ' ') + "\n\n"
  }

  /** A heading paragraph holds no line break, so its heading is a single markdown line. */
  lemma HeadingHasNoBreak(para: string)
    requires IsHeadingParagraph(para)
    ensures '\n' !in para
  {
    SplitSingle(para, '\n');
  }

  /**
   * Every paragraph becomes exactly one line of markdown: its line breaks are the closing one
   * (heading) or two (paragraph) and no other.
   */
  lemma FormatParagraphOneLine(para: string)
    ensures var r := FormatParagraph(para);
      var closing := if IsHeadingParagraph(para) then 1 else 2;
      closing <= |r| &&
      (forall i :: 0 <= i < |r| - closing ==> r[i] != '\n') &&
      (forall i :: |r| - closing <= i < |r| ==> r[i] == '\n')
  {
    if IsHeadingParagraph(para) {
      HeadingHasNoBreak(para);
      var r := FormatParagraph(para);
      forall i | 0 <= i < |r| - 1 ensures r[i] != '\n' {
        if i >= 3 {
          assert r[i] == para[i - 3];
        }
      }
    }
  }

  /** The markdown of the first `n` paragraphs, one part each, in order. */
  function FormatAll(paras: seq<string>, n: nat): (r: seq<string>)
    requires n <= |paras|
    ensures |r| == n
  {
    if n == 0 then [] else FormatAll(paras, n - 1) + [FormatParagraph(paras[n - 1])]
  }

  /** Every paragraph's markdown is non-empty. */
  lemma FormatAllNonEmpty(paras: seq<string>, n: nat)
    requires n <= |paras|
    ensures forall k :: 0 <= k < n ==> FormatAll(paras, n)[k] != []
  {
    forall k | 0 <= k < n ensures FormatAll(paras, n)[k] != [] {
      FormatAllAt(paras, n, k);
    }
  }

  /** Record `k` of `FormatAll` is the markdown of paragraph `k`. */
  lemma {:induction false} FormatAllAt(paras: seq<string>, n: nat, k: nat)
    requires k < n <= |paras|
    ensures FormatAll(paras, n)[k] == FormatParagraph(paras[k])
  {
    if k < n - 1 {
      FormatAllAt(paras, n - 1, k);
    }
  }

  /**
   * The parts one page contributes: nothing for a blank page (one whose stripped text is
   * empty); otherwise the rule (unless it is page 0) and then its paragraphs' markdown.
   */
  function PageParts(pageNum: nat, text: string): seq<string> {
    if AllSpace(text) then []
    else
      var paras := Paragraphs(text);
      (if pageNum > 0 then [PageBreak] else []) + FormatAll(paras, |paras|)
  }

  /**
   * A page contributes nothing exactly when it is blank; otherwise one part per paragraph, after
   * the rule when its index is not 0, even if every earlier page was blank.
   */
  lemma PagePartsShape(pageNum: nat, text: string)
    ensures PageParts(pageNum, text) == [] <==> AllSpace(text)
    ensures !AllSpace(text) ==>
      |PageParts(pageNum, text)| == |Paragraphs(text)| + (if pageNum > 0 then 1 else 0) &&
      (pageNum > 0 ==> PageParts(pageNum, text)[0] == PageBreak)
  {
    ParagraphsEmptyIffBlank(text);
  }

  /** Every part in `parts` is non-empty. */
  predicate NonEmptyParts(parts: seq<string>) {
    forall k :: 0 <= k < |parts| ==> parts[k] != []
  }

  lemma NonEmptyPartsConcat(a: seq<string>, b: seq<string>)
    requires NonEmptyParts(a) && NonEmptyParts(b)
    ensures NonEmptyParts(a + b)
  {
    assert forall k :: |a| <= k < |a + b| ==> (a + b)[k] == b[k - |a|];
  }

  /** Every part a page contributes is non-empty. */
  lemma PagePartsNonEmpty(pageNum: nat, text: string)
    ensures NonEmptyParts(PageParts(pageNum, text))
  {
    if !AllSpace(text) {
      var paras := Paragraphs(text);
      FormatAllNonEmpty(paras, |paras|);
    }
  }

  /** The parts of the first `n` pages, in page order. */
  function PartsUpTo(pages: seq<string>, n: nat): seq<string>
    requires n <= |pages|
  {
    if n == 0 then [] else PartsUpTo(pages, n - 1) + PageParts(n - 1, pages[n - 1])
  }

  /** The markdown text of a document whose pages have the given texts. */
  function Markdown(pages: seq<string>): string {
    Join(PartsUpTo(pages, |pages|), "")
  }

  /**
   * `extract_text`: walks the pages in order and, for every non-blank one, appends the rule
   * (after page 0) and the markdown of each of its paragraphs; the parts are concatenated.
   */
  method ExtractText(pages: seq<string>) returns (md: string)
    ensures md == Markdown(pages)
  {
    var parts: seq<string> := [];
    for pageNum := 0 to |pages|
      invariant parts == PartsUpTo(pages, pageNum)
    {
      var text := pages[pageNum];
      StripEmptyIffBlank(text);
      if Strip(text) != [] {
        var head: seq<string> := [];
        if pageNum > 0 {
          head := [PageBreak];
        }
        var paragraphs := Paragraphs(text);
        var body: seq<string> := [];
        for k := 0 to |paragraphs|
          invariant body == FormatAll(paragraphs, k)
        {
          var para := paragraphs[k];
          var lines := Split(para, "\n");
          if |lines| == 1 && |para| < 100 && IsUpper(para) {
            body := body + ["## " + para + "\n"];
          } else {
            body := body + [ReplaceChar(para, '\n', ' ') + "\n\n"];
          }
        }
        parts := parts + (head + body);
      }
    }
    md := Join(parts, "");
  }

  /** Every part of the first `n` pages is non-empty. */
  lemma {:induction false} PartsUpToNonEmpty(pages: seq<string>, n: nat)
    requires n <= |pages|
    ensures NonEmptyParts(PartsUpTo(pages, n))
  {
    if n > 0 {
      PartsUpToNonEmpty(pages, n - 1);
      PagePartsNonEmpty(n - 1, pages[n - 1]);
      var before := PartsUpTo(pages, n - 1);
      var page := PageParts(n - 1, pages[n - 1]);
      assert PartsUpTo(pages, n) == before + page;
      NonEmptyPartsConcat(before, page);
    }
  }

  /** The first `n` pages contribute no part exactly when they are all blank. */
  lemma {:induction false} PartsUpToEmptyIffBlank(pages: seq<string>, n: nat)
    requires n <= |pages|
    ensures PartsUpTo(pages, n) == [] <==> forall i :: 0 <= i < n ==> AllSpace(pages[i])
  {
    if n > 0 {
      PartsUpToEmptyIffBlank(pages, n - 1);
      PagePartsShape(n - 1, pages[n - 1]);
    }
  }

  /** The document's markdown is empty exactly when every page is empty or all white space. */
  lemma MarkdownEmptyIffBlank(pages: seq<string>)
    ensures Markdown(pages) == [] <==> forall i :: 0 <= i < |pages| ==> AllSpace(pages[i])
  {
    var parts := PartsUpTo(pages, |pages|);
    PartsUpToNonEmpty(pages, |pages|);
    PartsUpToEmptyIffBlank(pages, |pages|);
    if parts != [] {
      assert parts[0] != [];
      JoinLength(parts, "");
      SumLenMember(parts, 0);
    }
  }
}
