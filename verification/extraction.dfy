/** Text extraction from an uploaded file (`extract_text`): the file name's
    extension selects one document library, whose output is joined into one
    text. The libraries themselves are not modelled; what each would yield
    for the file is an input. */
module Extraction {
  import opened Wrappers
  import opened Strings

  /** The extractor a file name selects. */
  datatype FileKind = Pdf | Txt | Docx | Pptx | Unsupported

  /** Python's `name.split('.')[-1]`: the text after the last dot, or the
      whole name when it has no dot. */
  function LastSegment(name: string): (r: string)
    ensures '.' !in r
    ensures |r| <= |name| && r == name[|name| - |r|..]
    ensures |r| == |name| || name[|name| - |r| - 1] == '.'
  {
    var pieces := Split(name, '.');
    LastPiece(name, '.');
    pieces[|pieces| - 1]
  }

  /** A dot-free suffix that is the whole name or follows a dot is the last
      segment: the three facts above pin `LastSegment` down. */
  lemma LastSegmentUnique(name: string, r: string)
    requires '.' !in r
    requires |r| <= |name| && r == name[|name| - |r|..]
    requires |r| == |name| || name[|name| - |r| - 1] == '.'
    ensures LastSegment(name) == r
  {
    var q := LastSegment(name);
    SuffixCharIn(name, r, |q|);
    SuffixCharIn(name, q, |r|);
    assert |q| == |r|;
  }

  /** The character just before the last `n` characters of `name` lies in any
      longer suffix `r`. */
  lemma SuffixCharIn(name: string, r: string, n: nat)
    requires |r| <= |name| && r == name[|name| - |r|..]
    ensures n < |r| ==> name[|name| - n - 1] in r
  {
    if n < |r| {
      assert name[|name| - n - 1] == r[|r| - n - 1];
    }
  }

  function KindOf(ext: string): FileKind {
    if ext == "pdf" then Pdf
    else if ext == "txt" then Txt
    else if ext == "docx" then Docx
    else if ext == "pptx" then Pptx
    else Unsupported
  }

  /** The branch of `extract_text` a file name selects: one of the four
      supported extensions, in any letter case, after the last dot. */
  function ExtensionKind(name: string): (k: FileKind)
    ensures k == Pdf <==> MatchesAnyCase(LastSegment(name), "pdf")
    ensures k == Txt <==> MatchesAnyCase(LastSegment(name), "txt")
    ensures k == Docx <==> MatchesAnyCase(LastSegment(name), "docx")
    ensures k == Pptx <==> MatchesAnyCase(LastSegment(name), "pptx")
  {
    var last := LastSegment(name);
    SelectsPdf(last);
    SelectsTxt(last);
    SelectsDocx(last);
    SelectsPptx(last);
    KindOf(ToLower(last))
  }

  lemma SelectsPdf(last: string)
    ensures KindOf(ToLower(last)) == Pdf <==> MatchesAnyCase(last, "pdf")
  {
    ToLowerMatchesAnyCase(last, "pdf");
  }

  lemma SelectsTxt(last: string)
    ensures KindOf(ToLower(last)) == Txt <==> MatchesAnyCase(last, "txt")
  {
    ToLowerMatchesAnyCase(last, "txt");
  }

  lemma SelectsDocx(last: string)
    ensures KindOf(ToLower(last)) == Docx <==> MatchesAnyCase(last, "docx")
  {
    ToLowerMatchesAnyCase(last, "docx");
  }

  lemma SelectsPptx(last: string)
    ensures KindOf(ToLower(last)) == Pptx <==> MatchesAnyCase(last, "pptx")
  {
    ToLowerMatchesAnyCase(last, "pptx");
  }

  /** Appending `.ext` to any stem selects the branch of `ext`. */
  lemma ExtensionKindOfStem(stem: string, ext: string)
    requires '.' !in ext
    ensures LastSegment(stem + "." + ext) == ext
    ensures ExtensionKind(stem + "." + ext) == KindOf(ToLower(ext))
  {
    var name := stem + "." + ext;
    assert name[|name| - |ext|..] == ext;
    assert name[|name| - |ext| - 1] == '.';
    LastSegmentUnique(name, ext);
  }

  /** A name without a dot is its own extension. */
  lemma ExtensionKindOfBareName(name: string)
    requires '.' !in name
    ensures LastSegment(name) == name
    ensures ExtensionKind(name) == KindOf(ToLower(name))
  {
    assert name[0..] == name;
    LastSegmentUnique(name, name);
  }

  /** Lower-casing commutes with taking the last segment. */
  lemma LastSegmentToLower(name: string)
    ensures LastSegment(ToLower(name)) == ToLower(LastSegment(name))
  {
    var r := LastSegment(name);
    var lname := ToLower(name);
    var lr := ToLower(r);
    assert lr == lname[|lname| - |lr|..];
    assert '.' !in lr by {
      forall k | 0 <= k < |lr|
        ensures lr[k] != '.'
      {
        assert r[k] != '.';
      }
    }
    LastSegmentUnique(lname, lr);
  }

  /** The dispatch does not depend on letter case anywhere in the name. */
  lemma ExtensionKindIgnoresCase(a: string, b: string)
    requires ToLower(a) == ToLower(b)
    ensures ExtensionKind(a) == ExtensionKind(b)
  {
    LastSegmentToLower(a);
    LastSegmentToLower(b);
  }

  // The worked examples below take their literal as a parameter fixed by a
  // `requires` rather than writing it in the body: each fact about the
  // literal is then proved in a small lemma of its own, and the callers
  // reason about a name instead of the literal's characters.
  /** An upper-case extension selects the same library. */
  lemma UpperCasePdfSelectsPdf(name: string)
    requires name == "notes.PDF"
    ensures ExtensionKind(name) == Pdf
  {
    var ext := "PDF";
    assert name == "notes" + "." + ext;
    ExtensionKindOfStem("notes", ext);
    assert ToLower(ext) == "pdf";
  }

  /** Only the text after the last dot counts. */
  lemma InnerDotsDoNotCount(name: string)
    requires name == "report.pdf.txt"
    ensures ExtensionKind(name) == Txt
  {
    var ext := "txt";
    assert name == "report.pdf" + "." + ext;
    ExtensionKindOfStem("report.pdf", ext);
    assert ToLower(ext) == ext;
  }

  /** A double extension whose last part is not supported selects nothing. */
  lemma DoubleExtensionUnsupported(name: string)
    requires name == "archive.tar.gz"
    ensures ExtensionKind(name) == Unsupported
  {
    var ext := "gz";
    assert name == "archive.tar" + "." + ext;
    ExtensionKindOfStem("archive.tar", ext);
    assert ToLower(ext) == ext;
  }

  /** What each document library yields for the uploaded file; only the one
      the extension selects is consulted. */
  datatype ParsedDocument = ParsedDocument(
    pdfPages: seq<Option<string>>,        // `extract_text()` of each PDF page
    docxParagraphs: seq<string>,          // `text` of each Word paragraph
    pptxShapes: seq<seq<Option<string>>>, // per slide, the `text` of each shape that has one
    utf8Text: string)                     // the file's bytes decoded as UTF-8

  /** `page.extract_text() or ""`: a page without text gives an empty piece. */
  function PageTexts(pages: seq<Option<string>>): (r: seq<string>)
    ensures |r| == |pages|
    ensures forall k :: 0 <= k < |pages| ==> (pages[k].Some? ==> r[k] == pages[k].value)
    ensures forall k :: 0 <= k < |pages| ==> (pages[k].None? ==> r[k] == "")
  {
    if pages == [] then []
    else [if pages[0].Some? then pages[0].value else ""] + PageTexts(pages[1..])
  }

  /** The shapes that carry text, slide by slide (`shape.text for slide in
      prs.slides for shape in slide.shapes if hasattr(shape, "text")`);
      shapes without text are skipped rather than given an empty piece. */
  function ShapeTexts(slides: seq<seq<Option<string>>>): (r: seq<string>)
    ensures forall t :: t in r <==> exists i :: 0 <= i < |slides| && Some(t) in slides[i]
  {
    if slides == [] then []
    else
      var r := SlideTexts(slides[0]) + ShapeTexts(slides[1..]);
      assert forall i :: 1 <= i < |slides| ==> slides[i] == slides[1..][i - 1];
      r
  }

  /** The texts of one slide's shapes that have text, in shape order. */
  function SlideTexts(shapes: seq<Option<string>>): (r: seq<string>)
    ensures |r| <= |shapes|
    ensures forall t :: t in r <==> Some(t) in shapes
  {
    if shapes == [] then []
    else (if shapes[0].Some? then [shapes[0].value] else []) + SlideTexts(shapes[1..])
  }

  /** One more shape adds its text, if it has one, after the texts of the
      shapes before it: the texts keep the shapes' order. */
  lemma {:induction false} SlideTextsSnoc(shapes: seq<Option<string>>, o: Option<string>)
    ensures SlideTexts(shapes + [o]) == SlideTexts(shapes) + (if o.Some? then [o.value] else [])
  {
    if shapes == [] {
      assert shapes + [o] == [o];
    } else {
      assert (shapes + [o])[1..] == shapes[1..] + [o];
      SlideTextsSnoc(shapes[1..], o);
    }
  }

  /** One more slide adds its texts after those of the slides before it:
      the texts keep the slides' order. */
  lemma {:induction false} ShapeTextsSnoc(slides: seq<seq<Option<string>>>, slide: seq<Option<string>>)
    ensures ShapeTexts(slides + [slide]) == ShapeTexts(slides) + SlideTexts(slide)
  {
    if slides == [] {
      assert slides + [slide] == [slide];
    } else {
      var rest, whole := slides[1..], slides + [slide];
      assert whole[0] == slides[0] && whole[1..] == rest + [slide];
      ShapeTextsSnoc(rest, slide);
      assert ShapeTexts(whole) == SlideTexts(slides[0]) + ShapeTexts(rest + [slide]);
    }
  }

  /** `extract_text`: the selected library's pieces joined by single spaces,
      the decoded bytes for a text file, and silently the empty text for any
      other extension. */
  function ExtractText(name: string, doc: ParsedDocument): (text: string)
    ensures ExtensionKind(name) == Unsupported ==> text == ""
    ensures ExtensionKind(name) == Txt ==> text == doc.utf8Text
    ensures ExtensionKind(name) == Pdf ==> text == Join(PageTexts(doc.pdfPages), " ")
    ensures ExtensionKind(name) == Docx ==> text == Join(doc.docxParagraphs, " ")
    ensures ExtensionKind(name) == Pptx ==> text == Join(ShapeTexts(doc.pptxShapes), " ")
  {
    match ExtensionKind(name)
    case Pdf => Join(PageTexts(doc.pdfPages), " ")
    case Txt => doc.utf8Text
    case Docx => Join(doc.docxParagraphs, " ")
    case Pptx => Join(ShapeTexts(doc.pptxShapes), " ")
    case Unsupported => ""
  }

  /** Every PDF page contributes exactly one space-separated piece, empty for
      a page without text, as long as no page text itself holds a space. */
  lemma PdfPagesRoundTrip(name: string, doc: ParsedDocument)
    requires ExtensionKind(name) == Pdf
    requires |doc.pdfPages| >= 1
    requires forall k :: 0 <= k < |doc.pdfPages| ==>
               doc.pdfPages[k].Some? ==> ' ' !in doc.pdfPages[k].value
    ensures Split(ExtractText(name, doc), ' ') == PageTexts(doc.pdfPages)
  {
    var pieces := PageTexts(doc.pdfPages);
    assert forall k :: 0 <= k < |pieces| ==> ' ' !in pieces[k];
    SplitJoin(pieces, ' ');
  }

  /** Only the library the extension selects influences the text. */
  lemma ExtractTextReadsSelectedLibrary(name: string, d1: ParsedDocument, d2: ParsedDocument)
    requires ExtensionKind(name) == Pdf ==> d1.pdfPages == d2.pdfPages
    requires ExtensionKind(name) == Txt ==> d1.utf8Text == d2.utf8Text
    requires ExtensionKind(name) == Docx ==> d1.docxParagraphs == d2.docxParagraphs
    requires ExtensionKind(name) == Pptx ==> d1.pptxShapes == d2.pptxShapes
    ensures ExtractText(name, d1) == ExtractText(name, d2)
  {
  }
}
