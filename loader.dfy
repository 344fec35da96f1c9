/**
 * The document text loader of jobmatcher/utils/utils.py
 * (extract_text_from_file): only files whose name ends in ".pdf" are
 * read, and their pages' texts are concatenated in order. Decoding the
 * PDF is done by a library outside the model; its per-page texts are a
 * parameter.
 */
module Loader {
  import opened Results
  import opened Strings

  datatype LoaderError = UnsupportedFileType

  /** The pages' texts run together in page order, with nothing between them. */
  function Concat(pages: seq<string>): (text: string)
    ensures pages == [] ==> text == []
    ensures pages != [] ==> EndsWith(text, pages[|pages| - 1])
  {
    if pages == [] then [] else Concat(pages[..|pages| - 1]) + pages[|pages| - 1]
  }

  /** Concatenating the pages is joining them with the empty separator. */
  lemma {:induction false} ConcatIsJoin(pages: seq<string>)
    ensures Concat(pages) == Join(pages, "")
  {
    if |pages| > 1 {
      var init := pages[..|pages| - 1];
      ConcatIsJoin(init);
      JoinSnoc(init, pages[|pages| - 1]);
      assert init + [pages[|pages| - 1]] == pages;
    }
  }

  /** Joining with the empty separator, one more piece at the end is appended as is. */
  lemma {:induction false} JoinSnoc(xs: seq<string>, x: string)
    requires |xs| >= 1
    ensures Join(xs + [x], "") == Join(xs, "") + x
  {
    if |xs| > 1 {
      JoinSnoc(xs[1..], x);
      assert (xs + [x])[1..] == xs[1..] + [x];
    } else {
      assert (xs + [x])[1..] == [x];
    }
  }

  /**
   * extract_text_from_file: a name ending in ".pdf" (case-sensitive) gives
   * the concatenated page texts; any other name is an unsupported file type.
   */
  method ExtractTextFromFile(fileName: string, pageTexts: seq<string>) returns (r: Result<string, LoaderError>)
    ensures EndsWith(fileName, ".pdf") ==> r == Ok(Join(pageTexts, ""))
    ensures !EndsWith(fileName, ".pdf") ==> r == Err(UnsupportedFileType)
  {
    if EndsWith(fileName, ".pdf") {
      var text := "";
      for i := 0 to |pageTexts|
        invariant text == Concat(pageTexts[..i])
      {
        assert pageTexts[..i + 1][..i] == pageTexts[..i];
        text := text + pageTexts[i];
      }
      assert pageTexts[..|pageTexts|] == pageTexts;
      ConcatIsJoin(pageTexts);
      return Ok(text);
    } else {
      return Err(UnsupportedFileType);
    }
  }

  /** The extension test is case-sensitive: an upper-case ".PDF" is refused. */
  lemma UpperCasePdfRefused()
    ensures !EndsWith("resume.PDF", ".pdf")
    ensures EndsWith("resume.pdf", ".pdf")
  {
    assert "resume.PDF"[6..] == ".PDF";
    assert "resume.pdf"[6..] == ".pdf";
  }
}
