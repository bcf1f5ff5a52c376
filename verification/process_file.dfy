/**
 * How the batch pipeline turns one queued file into a result object
 * (`processFile` inside `processFiles`), and the page joining of the PDF text
 * extraction. OCR and PDF parsing themselves are outside the model: their
 * outcome reaches `ProcessFile` as an `Extraction`, either the text or the
 * message of the error they threw.
 */
module FileProcessing {
  import opened Common
  import opened Patterns
  import Text
  import Entries
  import DocumentCascade

  /** `{file, index}`: a file and its position in the list the user dropped. */
  datatype WorkItem = WorkItem(file: FileRef, index: nat)

  /** The extracted text, or the message of the error extraction threw. */
  type Extraction = Result<string, string>

  /** The result object of one file (`processedAt` is left out). */
  datatype Outcome = Outcome(
    file: FileRef, fileName: string, text: string,
    category: string, confidence: int, error: bool, index: nat)

  const NoTextMessage: string := "No text found in document"
  const ErrorsCategory: string := "Errors"
  const ErrorPrefix: string := "Error: "
  const PdfFailurePrefix: string := "Failed to extract text from PDF: "

  /** Extracted text whose trimmed length is below this counts as no text. */
  const MinTextLength: nat := 5

  /** Extraction errors pass through; text too short once trimmed becomes an error of its own. */
  function CheckText(extraction: Extraction): (r: Result<string, string>)
    ensures r.Success? <==> extraction.Success? && |Text.Trim(extraction.value)| >= MinTextLength
    ensures r.Success? ==> r == extraction
    ensures extraction.Failure? ==> r == extraction
    ensures extraction.Success? && r.Failure? ==> r.error == NoTextMessage
  {
    match extraction
    case Failure(msg) => Failure(msg)
    case Success(text) =>
      if |Text.Trim(text)| < MinTextLength then Failure(NoTextMessage) else Success(text)
  }

  /** `processFile(fileItem)`: the result object, or the error object when anything failed. */
  function ProcessFile(item: WorkItem, extraction: Extraction, matches: Matcher): (r: Outcome)
    ensures r.file == item.file && r.fileName == item.file.name && r.index == item.index
    ensures r.error <==> CheckText(extraction).Failure?
    ensures r.error ==> r.category == ErrorsCategory && r.confidence == 0
                        && r.text == ErrorPrefix + CheckText(extraction).error
    ensures !r.error ==> r.text == Text.Trim(extraction.value) && |r.text| >= MinTextLength
    ensures !r.error ==> DocumentCascade.Label(r.category, r.confidence)
                         == DocumentCascade.CategorizeDocument(extraction.value, matches)
  {
    match CheckText(extraction)
    case Failure(msg) =>
      Outcome(item.file, item.file.name, ErrorPrefix + msg, ErrorsCategory, 0, true, item.index)
    case Success(text) =>
      var decided := DocumentCascade.CategorizeDocument(text, matches);
      Outcome(item.file, item.file.name, Text.Trim(text), decided.category, decided.confidence, false, item.index)
  }

  /** An outcome is an error exactly when it is filed under "Errors", and errors have confidence 0. */
  lemma ErrorIffErrorsCategory(item: WorkItem, extraction: Extraction, matches: Matcher)
    ensures var r := ProcessFile(item, extraction, matches);
      && (r.error <==> r.category == ErrorsCategory)
      && (r.error <==> r.confidence == 0)
  {
    var r := ProcessFile(item, extraction, matches);
    if !r.error {
      DocumentCascade.NeverErrors(extraction.value, matches);
    }
  }

  /**
   * No outcome, error or not, is filed under a name every object inherits
   * (such as "constructor"), so grouping by category and the category
   * statistics give every outcome an entry of its own.
   */
  lemma CategoryNotInherited(item: WorkItem, extraction: Extraction, matches: Matcher)
    ensures ProcessFile(item, extraction, matches).category !in Entries.InheritedNames
  {
    var c := ProcessFile(item, extraction, matches).category;
    if CheckText(extraction).Success? {
      var d := DocumentCascade.CategorizeDocument(extraction.value, matches);
      if d != DocumentCascade.Fallback {
        var i :| 0 <= i < |DocumentCascade.Cues| && d == DocumentCascade.LabelOf(DocumentCascade.Cues[i]);
        DocumentCascade.CuesCapitalised(i);
      }
    }
    assert |c| > 0 && 'A' <= c[0] <= 'Z';
    if c in Entries.InheritedNames {
      Entries.InheritedUncapitalised(c);
    }
  }

  /** Missing, empty or blank text always fails with "No text found in document". */
  lemma BlankTextFails(item: WorkItem, text: string, matches: Matcher)
    requires Text.AllSpace(text)
    ensures ProcessFile(item, Success(text), matches).error
    ensures ProcessFile(item, Success(text), matches).text == ErrorPrefix + NoTextMessage
  {
    Text.TrimEmptyIffAllSpace(text);
  }

  /** The stored text of a success is already trimmed: trimming it again changes nothing. */
  lemma SuccessTextTrimmed(item: WorkItem, extraction: Extraction, matches: Matcher)
    ensures var r := ProcessFile(item, extraction, matches);
      !r.error ==> Text.Trim(r.text) == r.text
  {
    if extraction.Success? {
      Text.TrimIdempotent(extraction.value);
    }
  }

  // ---------------------------------------------------------------- PDF pages

  /** `textContent.items.map(item => item.str).join(' ')` for every page. */
  function PageTexts(pages: seq<seq<string>>): (r: seq<string>)
    ensures |r| == |pages|
    ensures forall i :: 0 <= i < |pages| ==> r[i] == Text.Join(" ", pages[i])
  {
    seq(|pages|, i requires 0 <= i < |pages| => Text.Join(" ", pages[i]))
  }

  /** The text of a document: its page texts separated by single blanks, trimmed. */
  function DocumentText(pages: seq<seq<string>>): string
  {
    Text.Trim(Text.Join(" ", PageTexts(pages)))
  }

  /** What PDF parsing yields: the text items of every page, or the message of the error it threw. */
  type PdfPages = Result<seq<seq<string>>, string>

  /** `extractPdfText`: the document's text, or the parser's failure rethrown with a prefix. */
  function PdfExtraction(pages: PdfPages): Extraction
  {
    match pages
    case Success(doc) => Success(DocumentText(doc))
    case Failure(msg) => Failure(PdfFailurePrefix + msg)
  }

  /** The extraction step of `processFile`: PDFs go through `extractPdfText`, every other type through OCR. */
  function Extract(file: FileRef, pages: PdfPages, ocrText: Extraction): Extraction
  {
    if file.mimeType == PdfType then PdfExtraction(pages) else ocrText
  }

  /** A file that is not a PDF is decided by its OCR text alone; what PDF parsing would say plays no part. */
  lemma ImagesUseOcr(item: WorkItem, pages: PdfPages, ocrText: Extraction, matches: Matcher)
    requires item.file.mimeType != PdfType
    ensures ProcessFile(item, Extract(item.file, pages, ocrText), matches) == ProcessFile(item, ocrText, matches)
  { }

  /**
   * A PDF the parser cannot open or read becomes an error result whose text
   * is the rethrown message behind "Error: "; OCR plays no part.
   */
  lemma PdfFailureReported(item: WorkItem, msg: string, ocrText: Extraction, matches: Matcher)
    requires item.file.mimeType == PdfType
    ensures var r := ProcessFile(item, Extract(item.file, Failure(msg), ocrText), matches);
      && r.error && r.category == ErrorsCategory && r.confidence == 0
      && r.text == ErrorPrefix + PdfFailurePrefix + msg
  { }

  /** A PDF whose text items are all blank (or which has none) fails with "No text found in document". */
  lemma BlankPdfFails(item: WorkItem, doc: seq<seq<string>>, ocrText: Extraction, matches: Matcher)
    requires item.file.mimeType == PdfType
    requires forall p, q :: 0 <= p < |doc| && 0 <= q < |doc[p]| ==> Text.AllSpace(doc[p][q])
    ensures var r := ProcessFile(item, Extract(item.file, Success(doc), ocrText), matches);
      r.error && r.category == ErrorsCategory && r.text == ErrorPrefix + NoTextMessage
  {
    var texts := PageTexts(doc);
    forall p | 0 <= p < |doc|
      ensures Text.AllSpace(texts[p])
    {
      Text.JoinAllSpace(" ", doc[p]);
    }
    Text.JoinAllSpace(" ", texts);
    Text.TrimEmptyIffAllSpace(Text.Join(" ", texts));
  }

  /**
   * A readable PDF fails exactly when its document text is shorter than
   * five characters; otherwise the stored text is that document text.
   */
  lemma PdfTextStored(item: WorkItem, doc: seq<seq<string>>, ocrText: Extraction, matches: Matcher)
    requires item.file.mimeType == PdfType
    ensures var r := ProcessFile(item, Extract(item.file, Success(doc), ocrText), matches);
      && (r.error <==> |DocumentText(doc)| < MinTextLength)
      && (!r.error ==> r.text == DocumentText(doc))
  {
    Text.TrimIdempotent(Text.Join(" ", PageTexts(doc)));
  }

  /**
   * `extractPdfText` once the document is open: each page's text followed by a
   * blank is appended to `fullText`, which is trimmed at the end; a failure to
   * open or read the document is rethrown with a prefix.
   */
  method ExtractPdfText(pages: PdfPages) returns (r: Extraction)
    ensures r == PdfExtraction(pages)
    ensures pages.Success? ==> r == Success(DocumentText(pages.value))
    ensures pages.Failure? ==> r == Failure(PdfFailurePrefix + pages.error)
  {
    if pages.Failure? {
      return Failure(PdfFailurePrefix + pages.error);
    }
    var doc := pages.value;
    var texts := PageTexts(doc);
    var fullText := "";
    var i := 0;
    while i < |doc|
      invariant 0 <= i <= |doc|
      invariant i == 0 ==> fullText == ""
      invariant i > 0 ==> fullText == Text.Join(" ", texts[..i]) + " "
    {
      var pageText := Text.Join(" ", doc[i]);
      if i > 0 {
        assert texts[..i + 1] == texts[..i] + [pageText];
        Text.JoinSnoc(" ", texts[..i], pageText);
      } else {
        assert texts[..1] == [pageText];
      }
      fullText := fullText + pageText + " ";
      i := i + 1;
    }
    if |doc| > 0 {
      assert texts[..|doc|] == texts;
      Text.TrimAppendSpace(Text.Join(" ", texts));
    }
    return Success(Text.Trim(fullText));
  }
}
