# OCR document organizer — a Dafny model of its core

The application takes a list of scanned documents (images and PDFs), extracts
their text (OCR for images, text extraction for PDFs), files each document
under a category, and packs the documents into one folder per category. This
project models the logic behind that flow. Three groups of code are covered:

* **The weighted-pattern categorizer** (`DocumentCategorizer`,
  `document_categorizer.dfy`). A table of categories holds weighted rules. A
  text scores, per category, the weights of the rules it matches. The earliest
  category with the strictly highest score wins. A best score below 3 gives
  "Other Documents". The confidence is the best score's percentage of the
  largest category weight sum, capped at 100. The module also models
  registering a custom rule and the per-category statistics over results.
* **The batch pipeline of the application component**, in four modules:
  - `DocumentCascade` (`ocr_cascade.dfy`): the first-match cue cascade that
    the pipeline actually calls to categorize a document.
  - `FileProcessing` (`process_file.dfy`): how one file's extraction becomes
    a result object or an error object, and the page joining of the PDF text
    extraction.
  - `BatchQueue` (`batch_queue.dfy`): the queue that keeps at most ten files
    in flight. It is modelled as a transition system in which any file in
    flight may finish next. It also covers the final sort by original
    position.
  - `ResultGrouping` (`result_grouping.dfy`): the grouping by category that
    shapes the download archive.
* **The file validation utilities** (`FileValidation`, `file_validation.dfy`):
  - the accumulating checks of `validateFile`;
  - the file-name sanitizer;
  - the magic-number test on a file's first bytes.

The other modules are shared pieces:

* `Common`: `Option`, `Result`, bytes and the file record.
* `Text`: the JavaScript whitespace class, `toLowerCase` on ASCII, `trim` and
  `join`.
* `Patterns`: regular expressions kept as source text. Whether a pattern
  matches is a `Matcher` parameter, so every property holds for any regex
  semantics.
* `Entries`: plain objects used as string-keyed dictionaries in key insertion
  order.

The model does no I/O. OCR and PDF parsing reach it as their outcome, either
the text or the error message. Reading a file's first bytes becomes the
file's content as an argument. The order in which concurrent work finishes is
chosen by a parameter.

## Model

| member | source | states |
|---|---|---|
| DocumentCategorizer.CategoryPatternsWellFormed | src/services/DocumentCategorizer.js:3-42 | The built-in table has categories, no category without rules, and distinct category names. |
| DocumentCategorizer.GetCategories | src/services/DocumentCategorizer.js:115-117 | The category names in table order; the registration rows state how it changes. |
| DocumentCategorizer.MaxPossible | src/services/DocumentCategorizer.js:79-81 | The largest per-category weight sum; MaxPossibleUpper and MaxPossibleAttained state that it is the maximum. |
| DocumentCategorizer.Score | src/services/DocumentCategorizer.js:55-65 | A category's score on a text; ScoreIsMatchedWeight and ScoreBounds state what it adds up. |
| DocumentCategorizer.CategoryPatternsWeights | src/services/DocumentCategorizer.js:3-42 | The built-in table has six categories with "Tax Documents" first. Their rule weights add up to 43, 24, 26, 31, 30 and 21, in table order. |
| DocumentCategorizer.CategoryPatternsMax | src/services/DocumentCategorizer.js:79-81 | For the built-in table, `maxPossibleScore` is 43, the Tax Documents sum. No other category's rules add up to more than 31. |
| DocumentCategorizer.MaxPossibleUpper | src/services/DocumentCategorizer.js:79-81 | No category's weight sum exceeds `maxPossibleScore`. |
| DocumentCategorizer.MaxPossibleAttained | src/services/DocumentCategorizer.js:79-81 | Some category's weight sum equals `maxPossibleScore`. Together with the previous row, it is the maximum. |
| DocumentCategorizer.MaxPossibleIs | src/services/DocumentCategorizer.js:79-81 | A category whose weight sum no other category exceeds gives `maxPossibleScore`. |
| DocumentCategorizer.MaxPossiblePositive | src/services/DocumentCategorizer.js:79-81 | With positive weights and no empty category, `maxPossibleScore` is positive, so the confidence division is defined. |
| DocumentCategorizer.Categorize | src/services/DocumentCategorizer.js:44-106 | A non-string or empty input gives "Other Documents" with confidence 0 and no score. Any other input gets a score of at least 0 and a confidence between 0 and 100. |
| DocumentCategorizer.Matched | src/services/DocumentCategorizer.js:59-64 | The matched rules are exactly the category's rules whose pattern matches the text. |
| DocumentCategorizer.ScoreIsMatchedWeight | src/services/DocumentCategorizer.js:55-65 | A category's score is the total weight of its matching rules. Each matching rule counts exactly once. |
| DocumentCategorizer.ScoreBounds | src/services/DocumentCategorizer.js:55-65 | A score lies between 0 and the category's weight sum. It is 0 iff no rule matches, and it equals the sum iff every rule matches. |
| DocumentCategorizer.Best | src/services/DocumentCategorizer.js:67-76 | The strict-`>` scan from 0 yields a bar of at least 0 that is at least every score. A winner's score equals the bar and is positive, and every earlier score is strictly lower. With no winner the bar is 0. |
| DocumentCategorizer.CategorizeScore | src/services/DocumentCategorizer.js:67-103 | The reported score is at least every category's score. It is either 0 or one of the scores. |
| DocumentCategorizer.CategorizeWinner | src/services/DocumentCategorizer.js:99-103 | A score below 3 gives "Other Documents". Otherwise the answer is a category with that score, and every category before it scores strictly less. |
| DocumentCategorizer.CategorizeEarliestMaxWins | src/services/DocumentCategorizer.js:67-76 | When the top score (at least 3) is shared, the category earliest in the table is chosen and no later one. |
| DocumentCategorizer.CategorizeZeroIffNoMatch | src/services/DocumentCategorizer.js:55-76 | The reported score is 0 exactly when no rule of any category matches the normalized text. |
| DocumentCategorizer.CategorizeWinnerBound | src/services/DocumentCategorizer.js:55-103 | A categorized text never scores above the weight sum of its own category. |
| DocumentCategorizer.ScoreOutsideCategory | src/services/DocumentCategorizer.js:55-103 | Suppose every category except one has a weight sum of at most some bound of 3 or more. Then any answer other than that category scores at most the bound. |
| DocumentCategorizer.Confidence | src/services/DocumentCategorizer.js:82 | For a non-negative score, the capped percentage lies in [0, 100]. |
| DocumentCategorizer.CategorizeConfidence | src/services/DocumentCategorizer.js:79-82 | The reported score lies between 0 and `maxPossibleScore`. The confidence is that score's capped percentage of `maxPossibleScore`. |
| DocumentCategorizer.ConfidenceIsPercent | src/services/DocumentCategorizer.js:82 | For a score between 0 and the maximum, the cap never binds. The confidence is exactly score × 100 / max. |
| DocumentCategorizer.OnlyTaxReachesFullConfidence | src/services/DocumentCategorizer.js:3-82 | With the built-in table, any answer other than "Tax Documents" has a confidence of at most 3100/43 (about 72.1). |
| DocumentCategorizer.AddCustomPattern | src/services/DocumentCategorizer.js:108-113 | Registration fails exactly for a name that is no category but an inherited property name. |
| DocumentCategorizer.AddCustomPatternEffect | src/services/DocumentCategorizer.js:108-117 | Registration fails (the `push` TypeError) exactly when the name is not a category but a property every object inherits, such as "constructor". Otherwise the rule (default weight 5) is appended to the named category's list. A missing category is created at the end of the category order, holding just that rule. Every other category is unchanged, and a well-formed table stays well-formed. |
| DocumentCategorizer.AddCustomPatternScore | src/services/DocumentCategorizer.js:108-113 | After a registration that succeeds, a category's score changes only if it is the named one and the new pattern matches. It then grows by the rule's weight. |
| DocumentCategorizer.CountResultEffect | src/services/DocumentCategorizer.js:121-129 | One result creates its category's entry at the end if missing, or else tallies it in place. Other entries are untouched. A missing category that is an inherited property name creates no entry. |
| DocumentCategorizer.GetCategoryStats | src/services/DocumentCategorizer.js:119-131 | The `forEach` fold of one result at a time; the next rows state its keys, entries and total. |
| DocumentCategorizer.GetCategoryStatsKeys | src/services/DocumentCategorizer.js:119-131 | The statistics keys are distinct, and none is an inherited property name. Every result's category, with "Other Documents" for a missing or empty one, is among them unless it is an inherited property name. |
| DocumentCategorizer.GetCategoryStatsEntries | src/services/DocumentCategorizer.js:119-131 | Each entry's count and total confidence are those of the results counted under its key, with a missing confidence counted as 0. The count is positive and the average is total/count. |
| DocumentCategorizer.TallyFaithful | src/services/DocumentCategorizer.js:126-128 | Tallying one more result into a faithful entry keeps it faithful: count, total and average all follow. |
| DocumentCategorizer.GetCategoryStatsTotal | src/services/DocumentCategorizer.js:119-131 | The per-category counts add up to the number of results whose category is not an inherited property name. |
| DocumentCategorizer.GetCategoryStatsCountsAll | src/services/DocumentCategorizer.js:119-131 | When no result's category is an inherited property name, the counts add up to the number of results. |
| Entries.Find | src/services/DocumentCategorizer.js:109 | A key is found iff it is present, and the position found holds that key. |
| Entries.UpsertEffect | src/services/DocumentCategorizer.js:109-112 | "Create if missing, then update" keeps the keys distinct. It adds a new key at the end, updates the key's entry, and touches no other entry. |
| DocumentCascade.FirstMatch | src/components/OcrApp.js:20-54 | The answer is none iff no cue matches. Otherwise it is a matching cue, and no earlier cue matches. |
| DocumentCascade.CategorizeDocument | src/components/OcrApp.js:20-54 | The answer is "Other Documents" with 50, or the category and confidence of one of the six cues. |
| DocumentCascade.CuesDistinct | src/components/OcrApp.js:23-53 | The six cue categories are distinct, and none is "Other Documents". |
| DocumentCascade.FallbackIffNoCue | src/components/OcrApp.js:20-54 | "Other Documents" comes back exactly when no cue matches the lowercased text, and then with confidence 50. |
| DocumentCascade.CueWinsIffFirst | src/components/OcrApp.js:20-54 | A cue decides the answer exactly when it matches and no earlier cue does. It then contributes its own confidence. |
| DocumentCascade.NeverErrors | src/components/OcrApp.js:20-54 | The cascade never answers "Errors", and its confidence is at least 50. |
| DocumentCascade.IgnoresCase | src/components/OcrApp.js:21 | Categorizing the lowercased text gives the same answer as the original text. |
| FileProcessing.Extract | src/components/OcrApp.js:243-249 | The extraction step: a PDF goes through `extractPdfText`, any other type through OCR. Its properties are the next four rows. |
| FileProcessing.ImagesUseOcr | src/components/OcrApp.js:243-249 | A file that is not a PDF is decided by its OCR text alone, whatever PDF parsing would say. |
| FileProcessing.PdfFailureReported | src/components/OcrApp.js:201-204 | A PDF that cannot be parsed becomes an error result with text "Error: Failed to extract text from PDF: " + the parser's message, "Errors" and confidence 0. |
| FileProcessing.BlankPdfFails | src/components/OcrApp.js:190-200 | A PDF with no text items, or only blank ones, becomes the error "Error: No text found in document". |
| FileProcessing.PdfTextStored | src/components/OcrApp.js:190-200 | A readable PDF fails exactly when its joined, trimmed page text is shorter than 5 characters; otherwise that text is what is stored. |
| FileProcessing.CheckText | src/components/OcrApp.js:251-253 | Text passes iff extraction succeeded and the trimmed text has at least 5 characters. An extraction error passes through. Short text fails with "No text found in document". |
| FileProcessing.ProcessFile | src/components/OcrApp.js:233-287 | A result keeps the file, its name and its index. It is an error iff the check fails, and then has "Errors", confidence 0 and text "Error: " + message. Otherwise it has the trimmed text (at least 5 characters) and the cascade's category and confidence. |
| FileProcessing.ErrorIffErrorsCategory | src/components/OcrApp.js:258-287 | A result is an error exactly when its category is "Errors", and exactly when its confidence is 0. |
| FileProcessing.CategoryNotInherited | src/components/OcrApp.js:258-287 | No result, error or not, carries a category that is an inherited property name such as "constructor", so grouping and statistics give each one its own entry. |
| FileProcessing.BlankTextFails | src/components/OcrApp.js:251-253 | Empty or all-blank text always yields the error text "Error: No text found in document". |
| FileProcessing.SuccessTextTrimmed | src/components/OcrApp.js:261 | The text stored for a success is already trimmed. |
| FileProcessing.PageTexts | src/components/OcrApp.js:193-196 | There is one text per page: its items joined by single blanks. |
| FileProcessing.ExtractPdfText | src/components/OcrApp.js:187-205 | The loop that appends each page text and a blank computes the page texts joined by single blanks and trimmed. A failure is rethrown with the prefix "Failed to extract text from PDF: ". |
| Text.ToLower | src/components/OcrApp.js:21 | Lowercasing keeps the length, maps A–Z to a–z, and leaves every other character alone. |
| Text.ToLowerIdempotent | src/components/OcrApp.js:21 | Lowercasing twice is lowercasing once. |
| Text.TrimStartSpec | src/components/OcrApp.js:251 | Trimming the start drops exactly the leading whitespace. |
| Text.TrimEndSpec | src/components/OcrApp.js:251 | Trimming the end drops exactly the trailing whitespace. |
| Text.TrimShape | src/components/OcrApp.js:251 | A trimmed string is a contiguous slice of the input. Everything cut away is whitespace, and the slice begins and ends with a non-blank. |
| Text.TrimEmptyIffAllSpace | src/components/OcrApp.js:251 | Trimming leaves nothing exactly when the input is all whitespace. |
| Text.TrimIdempotent | src/components/OcrApp.js:261 | Trimming twice is trimming once. |
| Text.JoinSnoc | src/components/OcrApp.js:196-197 | Joining one more part appends the separator and the part. |
| Text.JoinAllSpace | src/components/OcrApp.js:196 | Blank parts joined by a blank separator give a blank string. |
| Text.TrimAppendSpace | src/components/OcrApp.js:197-200 | The blank appended after the last page does not survive the final trim. |
| BatchQueue.Queue | src/components/OcrApp.js:229 | The queue holds every file once, paired with its position, in list order. |
| BatchQueue.StartBatch | src/components/OcrApp.js:211-214 | Nothing starts iff the file list is empty. |
| BatchQueue.StartNext | src/components/OcrApp.js:304-336 | The recursive `startNext`; StartNextEffect, StartNextSettles and StartNextInv state what it does. |
| BatchQueue.StartNextEffect | src/components/OcrApp.js:304-336 | Starting moves the first min(waiting, free slots) queued files into flight, in queue order. Results and progress are untouched. |
| BatchQueue.StartNextSettles | src/components/OcrApp.js:304-336 | After starting, no file waits or every slot is busy. |
| BatchQueue.StartNextSettled | src/components/OcrApp.js:305 | When no file waits or every slot is busy, starting does nothing. |
| BatchQueue.InitialRoundsFill | src/components/OcrApp.js:339-341 | The initial loop of `startNext` calls amounts to a single call, because its recursion already fills every free slot. |
| BatchQueue.StartBatchInv | src/components/OcrApp.js:339-341 | The first min(10, N) files are in flight and the rest wait in order. There are no results yet, and the queue invariant holds. |
| BatchQueue.StartOneConsistent | src/components/OcrApp.js:305-306 | Shifting the queue's head into a free slot keeps the batch consistent. |
| BatchQueue.StartNextInv | src/components/OcrApp.js:304-336 | Starting keeps the invariant. At most ten files are in flight, admission is FIFO, and no slot is idle while a file waits. |
| BatchQueue.RecordBags | src/components/OcrApp.js:309-311 | Moving a finished file from its slot to the results keeps every position accounted for once. |
| BatchQueue.RecordConsistent | src/components/OcrApp.js:309-311 | Recording a finished file's result keeps the batch consistent. |
| BatchQueue.Complete | src/components/OcrApp.js:309-316 | One file in flight finishing; CompleteInv states its effect. |
| BatchQueue.CompleteInv | src/components/OcrApp.js:309-316 | Any file in flight may finish next. The invariant is kept, that file's processed result is appended, and one fewer file remains. |
| BatchQueue.Progress | src/components/OcrApp.js:344-351 | While the wait loop runs, some file is in flight, so the loop cannot get stuck. |
| BatchQueue.DrainedExactlyOnce | src/components/OcrApp.js:344-351 | When the wait loop ends, every position 0..N-1 has exactly one result, and the progress counter is N. |
| BatchQueue.Insert | src/components/OcrApp.js:358 | Inserting into a list sorted by position keeps it sorted and adds one element. |
| BatchQueue.InsertPermutes | src/components/OcrApp.js:358 | Insertion adds exactly the new element. |
| BatchQueue.SortByIndex | src/components/OcrApp.js:358 | The sort yields a list of the same length, ordered by position. |
| BatchQueue.SortPermutes | src/components/OcrApp.js:358 | The sort only rearranges the results. |
| BatchQueue.SortIndexBag | src/components/OcrApp.js:358 | The sort keeps the positions the results carry. |
| BatchQueue.SortedPositionsAreIdentity | src/components/OcrApp.js:358 | A sorted list carrying positions lo..hi-1 once each has the result of position lo + i at place i. |
| BatchQueue.ResultsInOriginalOrder | src/components/OcrApp.js:344-358 | Whatever the completion order, after the sort there are N results. The i-th is for position i and file i, and each is one of the recorded results. |
| BatchQueue.FaithfulStep | src/components/OcrApp.js:309-311 | Each recorded result is `processFile` of its own file with that file's extraction. |
| BatchQueue.FaithfulSorted | src/components/OcrApp.js:355-358 | After the sort, the i-th result is `processFile` of the i-th file. |
| BatchQueue.ProcessFiles | src/components/OcrApp.js:208-360 | An empty list yields nothing. Otherwise, for any completion order, the results are `processFile` of each file, one per file, in list order, with each PDF read by `extractPdfText` and every other file by OCR. |
| ResultGrouping.GroupByCategory | src/components/OcrApp.js:388-394 | The grouping fold; the next rows state its keys, contents and sizes. |
| ResultGrouping.AddToGroupEffect | src/components/OcrApp.js:390-393 | A result is appended to its category's group, which is created at the end if missing. Other groups are untouched and keys stay distinct. |
| ResultGrouping.AddToGroupKeys | src/components/OcrApp.js:390-393 | Adding a result keeps keys distinct, keeps every key, and makes its category a key. |
| ResultGrouping.GroupKeys | src/components/OcrApp.js:388-394 | The group keys are distinct, and every result's category is one of them. |
| ResultGrouping.GroupContents | src/components/OcrApp.js:388-394 | Each group holds exactly the results of its category, in their original relative order, and no group is empty. |
| ResultGrouping.GroupSizesTotal | src/components/OcrApp.js:388-394 | The group sizes add up to the number of results, so nothing is lost or duplicated. |
| ResultGrouping.ResultInItsGroup | src/components/OcrApp.js:388-394 | Every result lies in the group whose key is its category. |
| FileValidation.ValidateFile | src/utils/fileValidation.js:14-48 | Validation either returns true or throws a non-empty error list. |
| FileValidation.ValidateFileAccepts | src/utils/fileValidation.js:14-48 | A file passes iff all of these hold: its type is allowed, its size is 1..50 MiB inclusive, its name has at most 255 characters, and the name, in any letter case, does not end with a suspicious extension. |
| FileValidation.ValidateFileErrors | src/utils/fileValidation.js:15-45 | The thrown errors are exactly the failed checks, each once, in the order type, size, name length, empty, extension. |
| FileValidation.Errors | src/utils/fileValidation.js:15-45 | The accumulated error list; ErrorsApply, ErrorsRanked and ErrorsComplete state that it is exactly the failed checks in order. |
| FileValidation.ErrorsApply | src/utils/fileValidation.js:15-42 | Every reported error holds of the file. |
| FileValidation.ErrorsRanked | src/utils/fileValidation.js:15-42 | Errors appear in check order, at most once each. |
| FileValidation.ErrorsComplete | src/utils/fileValidation.js:15-42 | Every failed check is reported. |
| FileValidation.ReplaceUnsafe | src/utils/fileValidation.js:64 | Each of `<>:"/\|?*` becomes `_`, and every other character is kept in place. |
| FileValidation.Truncate | src/utils/fileValidation.js:66 | Truncation keeps the prefix of length min(length, n): the name cut at 255 characters, and the header of a file's first bytes. |
| FileValidation.CollapseSpacesSafe | src/utils/fileValidation.js:65 | Collapsing whitespace runs leaves no whitespace, adds no unsafe character, and never lengthens the name. |
| FileValidation.CollapseSpacesNoSpace | src/utils/fileValidation.js:65 | Text without whitespace passes the whitespace pass unchanged. |
| FileValidation.CollapseRun | src/utils/fileValidation.js:65 | A maximal whitespace run between non-blank parts becomes exactly one `_`, and the parts on either side are treated independently. |
| FileValidation.SanitizeFileName | src/utils/fileValidation.js:61-67 | The three-step sanitizer; the next rows state its safety, idempotence and the whitespace-free case. |
| FileValidation.SanitizeFileNameSafe | src/utils/fileValidation.js:61-67 | A sanitized name has no unsafe character, no whitespace, and at most 255 characters. |
| FileValidation.SanitizeFileNameIdempotent | src/utils/fileValidation.js:61-67 | Sanitizing a sanitized name changes nothing. |
| FileValidation.SanitizeWithoutSpaces | src/utils/fileValidation.js:63-66 | A name without whitespace is sanitized character by character: unsafe characters become `_`, all others are kept, and the result is cut at 255. |
| FileValidation.MagicThroughHeader | src/utils/fileValidation.js:71-72 | A signature no longer than the header is seen in the header exactly when the content begins with it. |
| FileValidation.BytesAreMagic | src/utils/fileValidation.js:76-85 | Comparing the first bytes one by one, where a missing byte equals nothing, amounts to a prefix test. |
| FileValidation.PdfHeaderIff | src/utils/fileValidation.js:74-78 | The PDF byte tests pass exactly when the content begins with `%PDF`. |
| FileValidation.ImageHeaderAsWrittenIff | src/utils/fileValidation.js:79-89 | The image test as written passes exactly when the content begins with the JPEG, PNG, GIF or BMP signature. |
| FileValidation.ValidateFileSignatureAsWritten | src/utils/fileValidation.js:69-93 | The header check as written; SignatureAsWrittenIff and WebpRejectedAsWritten state what it accepts. |
| FileValidation.SignatureAsWrittenIff | src/utils/fileValidation.js:69-93 | A PDF passes iff the content begins with `%PDF`. An image type passes iff the content begins with one of the four image signatures. Any other type passes, and content shorter than a signature fails it. |
| FileValidation.WebpRejectedAsWritten | src/utils/fileValidation.js:79-89 | `image/webp` is an allowed type, yet every real WebP file fails the check as written. |
| FileValidation.WebpCounterexample | src/utils/fileValidation.js:4-89 | A 12-byte WebP header under `photo.webp` passes `validateFile` and fails the signature check as written. |
| FileValidation.WebpThroughHeader | src/utils/fileValidation.js:71 | With 12 bytes read, the header shows "RIFF" and "WEBP" exactly when the content is WebP. |
| FileValidation.ImageHeaderIff | src/utils/fileValidation.js:79-89 | The corrected image test passes exactly when the content carries one of the five image signatures. |
| FileValidation.SignatureIff | src/utils/fileValidation.js:69-93 | Under the corrected check, a PDF passes iff the content begins with `%PDF`, an image type iff it carries an image signature, and any other type always passes. |
| FileValidation.SignatureAgreesBesideWebp | src/utils/fileValidation.js:69-93 | The correction changes only WebP content, and it never rejects what the original accepted. |

## Left out

- Regular-expression semantics (`\b`, alternation, the `i` flag): each pattern keeps its source text and flags, and matching is a parameter.
- Text.ToLower: maps only A–Z. JavaScript's `toLowerCase` also lowercases non-ASCII letters. The properties proved here do not depend on which mapping is used, except the exact character-level statement of this member.
- Text.IsSpace: covers the ECMAScript whitespace and line terminators as code points. Strings are sequences of Unicode scalar values rather than UTF-16 units, so lengths such as the 5-character minimum and the 255-character limit count code points.
- Entries: keys always enumerate in insertion order. JavaScript enumerates keys that look like array indices (such as a category named "2024") first, in numeric order. That reordering would change `getCategories`, the tie-break in `categorize` and the archive folder order for such names.
- DocumentCategorizer.Categorize: requires a well-formed table: at least one category, every category with at least one rule, and distinct names. The built-in table is well-formed, and registration keeps it so. Distinct names are automatic for a JavaScript object. Two other tables behave differently in the source. An empty table gives `Math.max()` = `-Infinity`, so the confidence is `-0`. A non-empty table with no rule at all divides 0 by 0, so the confidence is `NaN`. A table in which only some categories lack rules behaves normally there, but the model does not cover it.
- Entries.Find: answers for own keys only. A plain object also inherits properties such as "constructor" or "toString", and `!obj[k]` is false for them. Callers handle those names before they look up or create an entry.
- Entries.UpsertEffect: describes creating and updating own keys. The inherited-name cases are handled by the callers: AddCustomPattern fails, CountResult skips the result, and outcomes never carry such a name (FileProcessing.CategoryNotInherited).
- DocumentCategorizer.CountResult: for a result whose category is an inherited property name, the source writes a count of `NaN` onto the shared inherited function, or for `__proto__` onto `Object.prototype`, instead of adding an entry. The model returns the statistics unchanged and does not model that pollution.
- ResultGrouping.GroupByCategory: a result under an inherited property name would make `push` throw at line 393, which the download handler reports as a failed download. The model does not cover this case, because every outcome of the pipeline has a cue category, "Other Documents" or "Errors" (FileProcessing.CategoryNotInherited).
- DocumentCategorizer.AddCustomPattern: weights are positive integers. The source accepts any value, including 0, negative, fractional or non-numeric weights.
- DocumentCategorizer.Confidence: computed in exact rational arithmetic. The source's double-precision rounding is left out.
- The `enableDebug` logging of `categorize`: output only, with no effect on the result.
- Error message texts of `validateFile`: modelled as error kinds, so the `"; "` join of their messages is not modelled. `formatFileSize` (both copies) is left out because it only shapes message text through floating-point `Math.log` and `toFixed`.
- FileProcessing.ProcessFile: the `processedAt` timestamp is left out. Missing OCR text (`!text`) is represented by the empty string, which the same check rejects.
- OCR (Tesseract) and PDF parsing (pdf.js): their outcome is a parameter, either the text or the error message. For PDFs, that outcome is the text items of each page, or the parser's error message.
- The asynchronous `file.slice(0, n).arrayBuffer()` read in `validateFileSignature`: the file's content is a parameter.
- BatchQueue.ProcessFiles: promises, `Promise.race` and the 50 ms `setTimeout` polling are replaced by completion steps whose order a parameter chooses. The `.catch` handler is not modelled, because `processFile` catches every error itself and never rejects. Within one completion, the progress counter and the result are recorded together.
- React state, the "currently processing" list, notifications, the drop zone and rendering: UI only.
- `downloadZip` packaging (JSZip, `saveAs`, file bytes, the timestamped archive name): only the grouping that decides the folders is modelled.
- `main.js`, `next.config.mjs`, `src/app/page.js` and `ErrorBoundary.js`: configuration and UI plumbing.

## Findings

| source | as written | input that shows it | evidently intended | confidence | as-written member | corrected member |
|---|---|---|---|---|---|---|
| src/utils/fileValidation.js:79-89 | `image/webp` is an allowed type (line 10), but the image test knows only the JPEG, PNG, GIF and BMP signatures. Also, only 8 bytes are read (line 71), so the "WEBP" tag at bytes 8..11 is out of reach. Every WebP file is therefore refused as "Invalid image file". | `photo.webp`, type `image/webp`, content `52 49 46 46 0C 00 00 00 57 45 42 50` ("RIFF", size, "WEBP") | WebP files, which `validateFile` allows, pass the header check when they carry the RIFF/WEBP signature | not executed | FileValidation.WebpRejectedAsWritten | FileValidation.SignatureIff |
