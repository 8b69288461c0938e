/** Worked examples of classification and segmentation on small inputs. */
module Scenarios {
  import opened Models
  import PageClassifier
  import Text
  import Segmenter

  /** A line reading "Separator - Invoice" marks its page as a separator page. */
  lemma SeparatorInvoiceLineQualifies()
    ensures PageClassifier.IsSplitterLine(Line("Separator - Invoice"))
  {
    var text := "Separator - Invoice";
    var upper := Text.ToUpper(text);
    assert upper[..9] == "SEPARATOR" by {
      forall i | 0 <= i < 9 ensures upper[i] == "SEPARATOR"[i] {
        assert upper[i] == Text.UpperChar(text[i]);
      }
    }
    assert upper[12..19] == "INVOICE" by {
      forall i | 12 <= i < 19 ensures upper[i] == "INVOICE"[i - 12] {
        assert upper[i] == Text.UpperChar(text[i]);
      }
    }
    assert Text.OccursAt(upper, "SEPARATOR", 0);
    assert Text.OccursAt(upper, "INVOICE", 12);
    Text.ContainsIff(upper, "SEPARATOR");
    Text.ContainsIff(upper, "INVOICE");
  }

  /** Two results for the same page number that are both blank are both listed. */
  lemma DuplicatePageNumbersSurvive()
    ensures PageClassifier.FindBlankPages(BatchResult("Succeeded", [RecognitionResult(2, []), RecognitionResult(2, [])])) == [2, 2]
  {
  }

  /** A page whose only line is white space is not blank. */
  lemma WhitespaceLineIsNotBlank()
    ensures PageClassifier.FindBlankPages(BatchResult("Succeeded", [RecognitionResult(1, [Line("  ")])])) == []
  {
  }

  /** The first three of those five pages: {1, 2} closed by the separator, and an empty piece. */
  lemma SeparatorInTheMiddleFirstPages()
    ensures Segmenter.SplitAtSeparators(Segmenter.Visited(3, [3], []), [3]) == [[1, 2], []]
  {
    assert Segmenter.SplitAtSeparators(Segmenter.Visited(0, [3], []), [3]) == [[]];
    Segmenter.SplitVisitedStep(0, [3], []);
    assert [[]][0] + [1] == [[1]][0];
    assert Segmenter.SplitAtSeparators(Segmenter.Visited(1, [3], []), [3]) == [[1]];
    Segmenter.SplitVisitedStep(1, [3], []);
    assert [[1]][0] + [2] == [[1, 2]][0];
    assert Segmenter.SplitAtSeparators(Segmenter.Visited(2, [3], []), [3]) == [[1, 2]];
    Segmenter.SplitVisitedStep(2, [3], []);
  }

  /** Five pages with a separator on page 3 give the documents {1, 2} and {4, 5}. */
  lemma SeparatorInTheMiddle()
    ensures Segmenter.Expected(5, [3], []) == [[1, 2], [4, 5]]
  {
    SeparatorInTheMiddleFirstPages();
    Segmenter.SplitVisitedStep(3, [3], []);
    assert [[]][0] + [4] == [[4]][0];
    assert [[1, 2], []][..1] == [[1, 2]];
    assert Segmenter.SplitAtSeparators(Segmenter.Visited(4, [3], []), [3]) == [[1, 2], [4]];
    Segmenter.SplitVisitedStep(4, [3], []);
    assert 5 !in [3] && !Segmenter.LastPageIsSeparator(5, [3]);
    assert [[4]][0] + [5] == [[4, 5]][0];
    assert [[1, 2], [4]][..1] == [[1, 2]];
    assert Segmenter.SplitAtSeparators(Segmenter.Visited(5, [3], []), [3]) == [[1, 2], [4, 5]];
  }

  /** The first two of those four pages: page 1 is copied and the blank page 2 is skipped. */
  lemma BlankPageSkippedFirstPages()
    ensures Segmenter.SplitAtSeparators(Segmenter.Visited(2, [], [2]), []) == [[1]]
  {
    assert Segmenter.SplitAtSeparators(Segmenter.Visited(0, [], [2]), []) == [[]];
    Segmenter.SplitVisitedStep(0, [], [2]);
    assert [[]][0] + [1] == [[1]][0];
    assert Segmenter.SplitAtSeparators(Segmenter.Visited(1, [], [2]), []) == [[1]];
    Segmenter.SplitVisitedStep(1, [], [2]);
  }

  /** Four pages with page 2 blank and no separator give one document {1, 3, 4}. */
  lemma BlankPageSkipped()
    ensures Segmenter.Expected(4, [], [2]) == [[1, 3, 4]]
  {
    BlankPageSkippedFirstPages();
    Segmenter.SplitVisitedStep(2, [], [2]);
    assert [[1]][0] + [3] == [[1, 3]][0];
    assert Segmenter.SplitAtSeparators(Segmenter.Visited(3, [], [2]), []) == [[1, 3]];
    Segmenter.SplitVisitedStep(3, [], [2]);
    assert [[1, 3]][0] + [4] == [[1, 3, 4]][0];
    assert Segmenter.SplitAtSeparators(Segmenter.Visited(4, [], [2]), []) == [[1, 3, 4]];
  }

  /** The first two of those three pages form the one piece {1, 2}. */
  lemma SeparatorOnLastPageFirstPages()
    ensures Segmenter.SplitAtSeparators(Segmenter.Visited(2, [3], []), [3]) == [[1, 2]]
  {
    assert Segmenter.SplitAtSeparators(Segmenter.Visited(0, [3], []), [3]) == [[]];
    Segmenter.SplitVisitedStep(0, [3], []);
    assert [[]][0] + [1] == [[1]][0];
    assert Segmenter.SplitAtSeparators(Segmenter.Visited(1, [3], []), [3]) == [[1]];
    Segmenter.SplitVisitedStep(1, [3], []);
    assert [[1]][0] + [2] == [[1, 2]][0];
  }

  /** Three pages with a separator on the last page save {1, 2} twice. */
  lemma SeparatorOnLastPage()
    ensures Segmenter.Expected(3, [3], []) == [[1, 2], [1, 2]]
  {
    SeparatorOnLastPageFirstPages();
    assert Segmenter.LastPageIsSeparator(3, [3]);
  }

  /** The first three of those five pages: {1}, then an empty piece between the separators, then another. */
  lemma AdjacentSeparatorsFirstPages()
    ensures Segmenter.SplitAtSeparators(Segmenter.Visited(3, [2, 3], []), [2, 3]) == [[1], [], []]
  {
    assert Segmenter.SplitAtSeparators(Segmenter.Visited(0, [2, 3], []), [2, 3]) == [[]];
    Segmenter.SplitVisitedStep(0, [2, 3], []);
    assert [[]][0] + [1] == [[1]][0];
    assert Segmenter.SplitAtSeparators(Segmenter.Visited(1, [2, 3], []), [2, 3]) == [[1]];
    Segmenter.SplitVisitedStep(1, [2, 3], []);
    Segmenter.SplitVisitedStep(2, [2, 3], []);
  }

  /** The first four of those five pages: {1}, an empty piece, and {4} opened after the second separator. */
  lemma AdjacentSeparatorsFourPages()
    ensures Segmenter.SplitAtSeparators(Segmenter.Visited(4, [2, 3], []), [2, 3]) == [[1], [], [4]]
  {
    AdjacentSeparatorsFirstPages();
    Segmenter.SplitVisitedStep(3, [2, 3], []);
    assert [[]][0] + [4] == [[4]][0];
    assert [[1], [], []][..2] == [[1], []];
  }

  /** Adjacent separators on pages 2 and 3 of five give an empty middle document. */
  lemma AdjacentSeparators()
    ensures Segmenter.Expected(5, [2, 3], []) == [[1], [], [4, 5]]
  {
    AdjacentSeparatorsFourPages();
    Segmenter.SplitVisitedStep(4, [2, 3], []);
    assert [[4]][0] + [5] == [[4, 5]][0];
    assert [[1], [], [4]][..2] == [[1], []];
  }
}

/** A worked example of polling for the recognition result. */
module PollingScenarios {
  import opened Models
  import RecognitionClient

  /** Two "Running" responses and then a "Succeeded" one: the third response is returned after three polls. */
  method PollUntilSucceeded() returns (batchResult: Option<BatchResult>, polls: nat)
    ensures batchResult == Some(BatchResult("Succeeded", [RecognitionResult(1, [])])) && polls == 3
  {
    var done := BatchResult("Succeeded", [RecognitionResult(1, [])]);
    var responses := [BatchResult("Running", []), BatchResult("Running", []), done];
    assert responses[0].status != RecognitionClient.Succeeded && responses[1].status != RecognitionClient.Succeeded;
    assert responses[2].status == RecognitionClient.Succeeded;
    batchResult, polls := RecognitionClient.RetrieveBatchReadResponse(responses);
    assert batchResult.Some? && responses[polls - 1].status == RecognitionClient.Succeeded;
    assert polls == 3;
  }
}
