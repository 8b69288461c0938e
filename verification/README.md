# pdf-splitter, modelled in Dafny

pdf-splitter is an Azure Function that receives a scanned PDF and splits it
into several PDFs. Scanned cover sheets reading "Separator - Invoice" mark
the boundaries. The function works in four steps:

1. It submits the PDF to a text-recognition service.
2. It polls the service until the recognition result has the status
   `Succeeded`.
3. It classifies pages:
   - a page is a **separator page** when one of its recognised lines,
     upper-cased, contains both `SEPARATOR` and `INVOICE`;
   - a page is a **blank page** when no line was recognised on it.
4. It walks the pages of the PDF in order:
   - a non-blank, non-separator page is copied into the current output
     document;
   - a separator page saves the current document and starts a new one;
   - blank pages are dropped;
   - after the last page, the current document is saved once more.

The model covers steps 2 to 4:

- `models.dfy` (`Models`): the recognition result records, as datatypes
  (`BatchResult`, `RecognitionResult`, `Line`), plus `Option` and
  `StrictlyIncreasing`.
- `text.dfy` (`Text`): upper-casing, and ordinal substring search with its
  characterisation as "occurs at some position".
- `classifier.dfy` (`PageClassifier`): `FindSplitterPages` and
  `FindBlankPages`, as filters over the recognition results followed by a
  projection onto page numbers.
- `segmenter.dfy` (`Segmenter`): the page loop, as the imperative method
  `SplitFile`. It is proved equal to the functional specification
  `Expected`, and the splitter's promises are proved about `Expected`.
  - A page is a 1-based page index.
  - An output document is the sequence of page indices copied into it.
  - Saving appends a snapshot of the accumulator to the output list.
- `recognition.dfy` (`RecognitionClient`): the poll loop, over a finite
  sequence of service responses.
- `scenarios.dfy` (`Scenarios`, `PollingScenarios`): worked examples on small inputs.

Four behaviours of the code are easy to miss:

- **Separator on the last page.** When the last page is a separator, the loop
  saves the current document and does not start a new one. The save after the
  loop then stores the same pages again. The output therefore ends with two
  copies of the last document, not with an empty one
  (`Segmenter.LastPageSeparatorRepeatsLastDocument`, `Scenarios.SeparatorOnLastPage`).
- **Duplicates are kept.** `.Distinct()` is applied to the recognition result
  objects, not to page numbers. Those objects compare by reference, so two
  results carrying the same page number are both kept
  (`Scenarios.DuplicatePageNumbersSurvive`).
- **Page numbers are not checked.** Classified page numbers are not
  restricted to `1..count`. A separator number outside that range has no
  effect on the loop.
- **Separator and blank at once.** A page that is both a separator and blank
  is handled as a separator, because that test comes first.

## Model

| member | source | states |
|---|---|---|
| Text.UpperChar | src/Splitter.cs:141 | lower-case ASCII letters are shifted to upper case, every other character is unchanged, and no lower-case letter remains |
| Text.ToUpper | src/Splitter.cs:141 | the upper-cased text has the same length, each character is upper-cased individually, and no lower-case letter remains |
| Text.ContainsIff | src/Splitter.cs:141 | substring search answers yes exactly when the token occurs at some position of the text |
| PageClassifier.Picks | src/Splitter.cs:140-142 | the positions the filter lets through are strictly increasing, in range and accepted, and every accepted position is among them |
| PageClassifier.PagesWhere | src/Splitter.cs:140-144 | the projected list has one entry per accepted result, in order, and each entry is that result's page number |
| PageClassifier.PagesWhereMembers | src/Splitter.cs:140-144 | a page number is listed exactly when some accepted result carries it |
| PageClassifier.PicksBound | src/Splitter.cs:140-142 | the filter never lets through more results than it is given |
| PageClassifier.FindSplitterPages | src/Splitter.cs:138-147 | a page number is listed exactly when some result with that number has a line containing both tokens after upper-casing; the list follows the order of the results, keeps duplicates, and is no longer than the results |
| PageClassifier.FindBlankPages | src/Splitter.cs:149-158 | a page number is listed exactly when some result with that number has no lines; the list follows the order of the results, keeps duplicates, and is no longer than the results |
| Segmenter.VisitedFacts | src/Splitter.cs:172-191 | the pages the loop acts on are increasing, and are exactly the pages of `1..n` that are separators or not blank |
| Segmenter.KeptFacts | src/Splitter.cs:187-191 | the copied pages are increasing, and are exactly the pages of `1..n` that are neither separators nor blank |
| Segmenter.SeparatorsUpToFacts | src/Splitter.cs:174 | the separator pages met are increasing, and are exactly the pages of `1..n` listed as separators |
| Segmenter.BlanksUpToFacts | src/Splitter.cs:187 | the skipped pages are increasing, and are exactly the blank pages of `1..n` that are not separators |
| Segmenter.SplitAtSeparators | src/Splitter.cs:174-191 | splitting at separators always yields at least one document |
| Segmenter.SplitFile | src/Splitter.cs:160-200 | the page loop, followed by the final save, returns exactly the documents of the specification `Expected` |
| Segmenter.VisitedStep | src/Splitter.cs:172-191 | one more page is acted on exactly when it is a separator or not blank |
| Segmenter.SplitVisitedStep | src/Splitter.cs:174-191 | one loop step: a separator closes the current document and opens an empty one, a copied page extends the current document, and a blank page changes nothing |
| Segmenter.SplitSnocSeparator | src/Splitter.cs:174-186 | a separator page appends a new, empty document after the existing ones |
| Segmenter.SplitSnocPage | src/Splitter.cs:187-191 | a copied page is appended to the last document, and the earlier documents are unchanged |
| Segmenter.SplitCons | src/Splitter.cs:174-191 | splitting a sequence with a first page either starts with an empty document, for a separator, or prepends that page to the first document |
| Segmenter.SeparatorsAppend | src/Splitter.cs:174 | the separators of two concatenated runs of pages are the separators of each, concatenated |
| Segmenter.NonSeparatorsAppend | src/Splitter.cs:187-191 | the non-separators of two concatenated runs of pages are the non-separators of each, concatenated |
| Segmenter.SplitLength | src/Splitter.cs:174-196 | there is one document more than there are separators |
| Segmenter.SplitConcat | src/Splitter.cs:174-191 | reading the documents one after another gives the non-separator pages in order |
| Segmenter.SplitPieces | src/Splitter.cs:174-191 | every page of every document comes from the input and is not a separator |
| Segmenter.SplitPiecesIncreasing | src/Splitter.cs:172-191 | an increasing input gives documents that are each increasing |
| Segmenter.VisitedSplit | src/Splitter.cs:172-191 | among the pages acted on, the separators are the separator pages of `1..n`, and the others are the copied pages |
| Segmenter.SplitSnocPrefix | src/Splitter.cs:172-191 | one more page never shortens the output, and every document before the current one is left unchanged |
| Segmenter.SplitPrefixStable | src/Splitter.cs:172-191 | documents already closed after `m` pages stay unchanged after any later page `n` |
| Segmenter.OutputCount | src/Splitter.cs:172-196 | the number of saved documents is the number of separator pages among `1..count`, plus one |
| Segmenter.ExpectedPieces | src/Splitter.cs:179-196 | every saved document is one piece of the split, and the extra final save repeats the last piece |
| Segmenter.CopiedPage | src/Splitter.cs:174-191 | a page found in a saved document lies in `1..count` and is neither a separator nor blank |
| Segmenter.NoSeparatorCopied | src/Splitter.cs:174-191 | no separator page, blank page or out-of-range page is ever copied into an output document |
| Segmenter.DocumentsIncreasing | src/Splitter.cs:172-191 | each output document holds its pages in the order of the source, without repeats |
| Segmenter.CopiedPagesInOrder | src/Splitter.cs:172-196 | the documents read one after another, without the repeated final save, are exactly the non-separator, non-blank pages in source order, each once |
| Segmenter.NoSeparatorsOneDocument | src/Splitter.cs:172-196 | with no separator page, the output is one document holding every non-blank page in order |
| Segmenter.NoSeparatorsUpTo | src/Splitter.cs:174 | with no separator page among `1..n`, no separator is met |
| Segmenter.LastPageSeparatorRepeatsLastDocument | src/Splitter.cs:179-196 | when the last page is a separator, the last two saved documents hold the same pages |
| Segmenter.AdjacentSeparatorsPiece | src/Splitter.cs:174-186 | two adjacent separator pages leave an empty document between them |
| Segmenter.AdjacentSeparatorsEmptyDocument | src/Splitter.cs:174-196 | two adjacent separator pages before the last page produce an empty output document, at the position given by the number of separators before it |
| Segmenter.CopiedPageCount | src/Splitter.cs:172-192 | every page of `1..n` is exactly one of: copied, a separator, or a skipped blank page |
| RecognitionClient.RetrieveBatchReadResponse | src/Splitter.cs:121-131 | returns the first response whose status is exactly "Succeeded", after exactly as many polls as its position; every earlier response had another status; nothing is returned only when no response succeeded |
| Scenarios.SeparatorInvoiceLineQualifies | src/Splitter.cs:141 | a line reading "Separator - Invoice" marks its page as a separator page |
| Scenarios.DuplicatePageNumbersSurvive | src/Splitter.cs:151-155 | two blank results for the same page number are both listed |
| Scenarios.WhitespaceLineIsNotBlank | src/Splitter.cs:152 | a page whose only line is white space is not blank |
| Scenarios.SeparatorInTheMiddleFirstPages | src/Splitter.cs:172-191 | after three pages with a separator on page 3, the documents are {1, 2} and an empty one |
| Scenarios.SeparatorInTheMiddle | src/Splitter.cs:172-196 | five pages with a separator on page 3 give the documents {1, 2} and {4, 5} |
| Scenarios.BlankPageSkippedFirstPages | src/Splitter.cs:172-191 | after the first two of four pages, with page 2 blank, the one document is {1} |
| Scenarios.BlankPageSkipped | src/Splitter.cs:172-196 | four pages with page 2 blank give the one document {1, 3, 4} |
| Scenarios.SeparatorOnLastPageFirstPages | src/Splitter.cs:172-191 | after the first two of three pages, with a separator on page 3, the one document is {1, 2} |
| Scenarios.SeparatorOnLastPage | src/Splitter.cs:172-196 | three pages with a separator on page 3 save {1, 2} twice |
| Scenarios.AdjacentSeparatorsFirstPages | src/Splitter.cs:172-191 | after three pages with separators on pages 2 and 3, the documents are {1}, an empty one and another empty one |
| Scenarios.AdjacentSeparatorsFourPages | src/Splitter.cs:172-191 | after four of five pages, with separators on pages 2 and 3, the documents are {1}, an empty one and {4} |
| Scenarios.AdjacentSeparators | src/Splitter.cs:172-196 | five pages with separators on pages 2 and 3 give {1}, an empty document and {4, 5} |
| PollingScenarios.PollUntilSucceeded | src/Splitter.cs:121-131 | responses with the statuses "Running", "Running" and "Succeeded" return the third response after three polls |

## Left out

- Submitting the document for recognition (`PostBatchReadRequestAsync`) is not modelled: it is an HTTP request plus the extraction of a response header.
- RecognitionClient.RetrieveBatchReadResponse: polls a finite sequence of responses. The real loop polls without end until a response succeeds; here `None` means the sequence ran out. The two-second sleep and JSON deserialisation are not modelled.
- Saving to blob storage (`SaveToBlobStorageAsync`) is not modelled: generated file names, time stamps, GUIDs, PDF serialisation and uploads are I/O. A save is modelled as taking a snapshot of the accumulator's page list.
- PDF handling (opening the input, adding pages, creating documents) belongs to an external library. A document is modelled by the page indices it holds. Whatever that library does when the same document is saved a second time is not modelled.
- The `SplitUploadAsync` entry point only chains the steps above through I/O. The commented-out blob-triggered variant is not compiled.
- Static configuration read from environment variables is not modelled, and neither is the encoding-provider registration.
- Text.ToUpper: assumes a culture whose upper-casing maps a-z to A-Z. The source upper-cases with the current culture. Under a Turkish or Azerbaijani culture, 'i' becomes 'İ' (U+0130), so "Separator - invoice" does not mark a separator page there, although the model accepts it. Non-ASCII letters (for example 'ı', which those cultures map to 'I') are not upper-cased in the model.
- Text.UpperChar: has the same gap as `Text.ToUpper`. It maps only a-z to A-Z and leaves every other character unchanged, whatever the culture.
- Null fields and malformed JSON are not modelled. In the service these would raise exceptions.
- Geometry fields (bounding boxes, orientation, size, unit), `Word` and the `Result`/`BatchRequest` wrappers carry nothing the core reads. They are left out.
- `src/Main.cs` is not part of this model.
