/** The page-text accumulator of the PDF reader
    (`PDFProcessor._extract_from_path`). The document is not parsed here:
    the text the PDF library extracts from each page is an input. The
    accumulator starts from the empty string and appends each page's text
    followed by a newline, in page order. */
module PdfProcessor {
  import opened PyStrings

  /** The accumulated text after the given pages, one page at a time. */
  function PageText(pages: seq<string>): string
    decreases |pages|
  {
    if pages == [] then ""
    else PageText(pages[..|pages| - 1]) + pages[|pages| - 1] + "\n"
  }

  /** `_extract_from_path`: the loop over the reader's pages. */
  method ExtractFromPath(pages: seq<string>) returns (text: string)
    ensures text == PageText(pages)
  {
    text := "";
    for k := 0 to |pages|
      invariant text == PageText(pages[..k])
    {
      assert pages[..k + 1][..k] == pages[..k];
      text := text + pages[k] + "\n";
    }
    assert pages[..|pages|] == pages;
  }

  /** Total length of the page texts. */
  function TotalLength(pages: seq<string>): nat
    decreases |pages|
  {
    if pages == [] then 0 else |pages[0]| + TotalLength(pages[1..])
  }

  lemma {:induction false} TotalLengthSnoc(pages: seq<string>, p: string)
    ensures TotalLength(pages + [p]) == TotalLength(pages) + |p|
    decreases |pages|
  {
    if pages != [] {
      assert (pages + [p])[1..] == pages[1..] + [p];
      TotalLengthSnoc(pages[1..], p);
    } else {
      assert [p][1..] == [];
    }
  }

  /** One newline per page is added: the text is as long as the pages
      together plus the number of pages; no pages give the empty string. */
  lemma {:induction false} PageTextLength(pages: seq<string>)
    ensures |PageText(pages)| == TotalLength(pages) + |pages|
    ensures pages == [] <==> PageText(pages) == ""
    decreases |pages|
  {
    if pages != [] {
      var init := pages[..|pages| - 1];
      PageTextLength(init);
      assert pages == init + [pages[|pages| - 1]];
      TotalLengthSnoc(init, pages[|pages| - 1]);
    }
  }

  /** The text of a document in two parts is the text of the first part
      followed by that of the second. */
  lemma {:induction false} PageTextConcat(a: seq<string>, b: seq<string>)
    ensures PageText(a + b) == PageText(a) + PageText(b)
    decreases |b|
  {
    if b == [] {
      assert a + b == a;
    } else {
      var init, last := b[..|b| - 1], b[|b| - 1];
      assert (a + b)[..|a + b| - 1] == a + init;
      assert (a + b)[|a + b| - 1] == last;
      PageTextConcat(a, init);
      var x, y := PageText(a), PageText(init);
      assert (x + y) + last + "\n" == x + (y + last + "\n");
    }
  }

  /** Every page, the last one included, is followed by a newline: the text
      is the pages joined by newlines with an empty piece after the last. */
  lemma {:induction false} PageTextIsJoin(pages: seq<string>)
    ensures PageText(pages) == Join(pages + [""])
    decreases |pages|
  {
    if pages == [] {
      assert [] + [""] == [""];
    } else {
      var init, last := pages[..|pages| - 1], pages[|pages| - 1];
      assert pages == init + [last];
      PageTextIsJoin(init);
      if init == [] {
        assert pages + [""] == [last, ""];
        assert Join([""]) == "";
        assert Join([last, ""]) == last + "\n" + "";
      } else {
        JoinSnoc(init + [last], "");
        JoinSnoc(init, last);
        JoinSnoc(init, "");
        assert (init + [last]) + [""] == pages + [""];
        var j := Join(init);
        assert j + "\n" + "" == j + "\n";
        assert PageText(init) == j + "\n";
        assert Join(pages + [""]) == j + "\n" + last + "\n" + "";
      }
    }
  }

  /** When no page text holds a newline, splitting the text at newlines
      gives the pages back, followed by one empty piece. */
  lemma PageTextSplitsIntoPages(pages: seq<string>)
    requires forall k :: 0 <= k < |pages| ==> '\n' !in pages[k]
    ensures Split(PageText(pages)) == pages + [""]
  {
    PageTextIsJoin(pages);
    var parts := pages + [""];
    assert forall k :: 0 <= k < |parts| ==> '\n' !in parts[k] by {
      forall k | 0 <= k < |parts| ensures '\n' !in parts[k] {
        if k < |pages| {
          assert parts[k] == pages[k];
        }
      }
    }
    SplitJoin(parts);
  }
}
