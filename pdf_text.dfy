/**
 * `extract_text_from_pdf` (utils.py): the text of each page, as the PDF
 * reader reports it, is appended with a line break when it is truthy (present
 * and non-empty); the accumulated text is then stripped. The reader itself is
 * not modelled: its output is the sequence of optional page texts.
 */
module PdfText {
  import opened Wrappers
  import opened PyStr


  /** `if page_text:` holds: the reader gave a text and it is not "". */
  predicate HasText(page: Option<string>): (has: bool)
    ensures has <==> page != None && page != Some("")
  {
    page.Some? && page.value != ""
  }

  /** The texts of the pages that have one, in page order. */
  function PageTexts(pages: seq<Option<string>>): (texts: seq<string>)
    ensures |texts| <= |pages|
    ensures forall k :: 0 <= k < |texts| ==> texts[k] != ""
    ensures texts == [] <==> forall k :: 0 <= k < |pages| ==> !HasText(pages[k])
  {
    if pages == [] then []
    else
      var front := pages[..|pages| - 1];
      var page := pages[|pages| - 1];
      assert forall k :: 0 <= k < |front| ==> front[k] == pages[k];
      if HasText(page) then PageTexts(front) + [page.value] else PageTexts(front)
  }

  /** Each text followed by a line break, concatenated: the accumulator after the loop. */
  function Terminated(texts: seq<string>): (s: string)
    ensures s == [] <==> texts == []
    ensures texts != [] ==> s[|s| - 1] == LineBreak[0]
  {
    if texts == [] then ""
    else Terminated(texts[..|texts| - 1]) + texts[|texts| - 1] + LineBreak
  }

  /** Page by page, the text the loop appends when the page has one, and `None` otherwise. */
  function PageOpts(pages: seq<Option<string>>): (opts: seq<Option<string>>)
    ensures |opts| == |pages|
    ensures forall k :: 0 <= k < |pages| ==> opts[k] == if HasText(pages[k]) then Some(pages[k].value) else None
  {
    seq(|pages|, k requires 0 <= k < |pages| => if HasText(pages[k]) then Some(pages[k].value) else None)
  }

  /** The page texts are the values kept page by page. */
  lemma {:induction false} PageTextsSomes(pages: seq<Option<string>>)
    ensures PageTexts(pages) == Somes(PageOpts(pages))
    decreases |pages|
  {
    if pages != [] {
      var n := |pages| - 1;
      var front := pages[..n];
      assert PageOpts(pages)[..n] == PageOpts(front);
      PageTextsSomes(front);
    }
  }

  /**
   * The page texts keep page order and lose no page with text: text `k`
   * comes from page `Positions(PageOpts(pages))[k]`, which has text, these
   * page numbers increase, and every page with text is among them.
   */
  lemma PageOrder(pages: seq<Option<string>>)
    ensures |Positions(PageOpts(pages))| == |PageTexts(pages)|
    ensures forall k :: 0 <= k < |PageTexts(pages)| ==>
      var j := Positions(PageOpts(pages))[k];
      j < |pages| && HasText(pages[j]) && pages[j].value == PageTexts(pages)[k]
    ensures forall k, m :: 0 <= k < m < |PageTexts(pages)| ==>
      Positions(PageOpts(pages))[k] < Positions(PageOpts(pages))[m]
    ensures forall j :: 0 <= j < |pages| && HasText(pages[j]) ==> j in Positions(PageOpts(pages))
  {
    PageTextsSomes(pages);
    PositionsSpec(PageOpts(pages));
  }

  /** The accumulator is the texts joined by line breaks, plus one final line break. */
  lemma {:induction false} TerminatedJoin(texts: seq<string>)
    requires texts != []
    ensures Terminated(texts) == Join(texts, LineBreak) + LineBreak
    decreases |texts|
  {
    var n := |texts| - 1;
    var front := texts[..n];
    if front != [] {
      TerminatedJoin(front);
      JoinAppend(front, LineBreak, texts[n]);
      assert front + [texts[n]] == texts;
    }
  }

  /**
   * `extract_text_from_pdf`: the texts of the pages that have one, in page
   * order, separated by single line breaks, with the whitespace at both ends
   * of the whole removed. Pages with no text contribute nothing; when no page
   * has text the result is "".
   */
  method ExtractText(pages: seq<Option<string>>) returns (text: string)
    ensures text == Strip(Join(PageTexts(pages), LineBreak))
    ensures Stripped(text)
    ensures (forall k :: 0 <= k < |pages| ==> !HasText(pages[k])) ==> text == ""
  {
    var acc := "";
    for i := 0 to |pages|
      invariant acc == Terminated(PageTexts(pages[..i]))
    {
      var pageText := pages[i];
      ExtractStep(pages, i);
      if pageText.Some? && pageText.value != "" {
        acc := acc + pageText.value + LineBreak;
      }
    }
    WholeSlice(pages);
    text := Strip(acc);
    StripTerminated(PageTexts(pages));
    NoTextEmpty(pages);
  }

  /** With no page text, the result is "". */
  lemma NoTextEmpty(pages: seq<Option<string>>)
    ensures (forall k :: 0 <= k < |pages| ==> !HasText(pages[k])) ==> Strip(Join(PageTexts(pages), LineBreak)) == ""
  {
    assert AllSpace("");
  }

  /** One more page appends its text and a line break to the accumulator, if it has text. */
  lemma ExtractStep(pages: seq<Option<string>>, i: int)
    requires 0 <= i < |pages|
    ensures HasText(pages[i]) ==>
      Terminated(PageTexts(pages[..i + 1])) == Terminated(PageTexts(pages[..i])) + pages[i].value + LineBreak
    ensures !HasText(pages[i]) ==> Terminated(PageTexts(pages[..i + 1])) == Terminated(PageTexts(pages[..i]))
  {
    assert pages[..i + 1][..i] == pages[..i];
    if HasText(pages[i]) {
      var texts := PageTexts(pages[..i + 1]);
      assert texts[..|texts| - 1] == PageTexts(pages[..i]);
    }
  }

  /** The final line break of the accumulator is whitespace, so stripping removes it. */
  lemma StripTerminated(texts: seq<string>)
    ensures Strip(Terminated(texts)) == Strip(Join(texts, LineBreak))
  {
    if texts == [] {
      assert Terminated(texts) == "" == Join(texts, LineBreak);
    } else {
      var joined := Join(texts, LineBreak);
      TerminatedJoin(texts);
      assert IsSpace(LineBreak[0]);
      StripTrailing(joined, LineBreak);
    }
  }

  /**
   * When every page text has no whitespace at its ends, nothing is lost to
   * stripping: the result is exactly the page texts separated by single line
   * breaks.
   */
  lemma CleanPagesJoined(pages: seq<Option<string>>)
    requires forall k :: 0 <= k < |pages| && pages[k].Some? ==> Stripped(pages[k].value)
    ensures Strip(Join(PageTexts(pages), LineBreak)) == Join(PageTexts(pages), LineBreak)
  {
    PageTextsStripped(pages);
    JoinStripped(PageTexts(pages), LineBreak);
    StripFixpoint(Join(PageTexts(pages), LineBreak));
  }

  lemma {:induction false} PageTextsStripped(pages: seq<Option<string>>)
    requires forall k :: 0 <= k < |pages| && pages[k].Some? ==> Stripped(pages[k].value)
    ensures forall k :: 0 <= k < |PageTexts(pages)| ==> Stripped(PageTexts(pages)[k])
    decreases |pages|
  {
    if pages != [] {
      var front := pages[..|pages| - 1];
      assert forall k :: 0 <= k < |front| ==> front[k] == pages[k];
      PageTextsStripped(front);
    }
  }
}
