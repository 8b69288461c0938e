/**
 * The recognition result returned by the text-recognition service, reduced to
 * the fields the splitter reads: the batch status, and for every recognised
 * page its page number and the text of its lines.
 */
module Models {

  /** One recognised line of text; the bounding box and the words are not read. */
  datatype Line = Line(text: string)

  /** The recognition of one page; orientation, size and unit are not read. */
  datatype RecognitionResult = RecognitionResult(page: int, lines: seq<Line>)

  /** One polling response of the recognition service. */
  datatype BatchResult = BatchResult(status: string, recognitionResults: seq<RecognitionResult>)

  datatype Option<T> = None | Some(value: T)

  /** Every element is smaller than every later one: in order and without repeats. */
  predicate StrictlyIncreasing(s: seq<int>) {
    forall i, j :: 0 <= i < j < |s| ==> s[i] < s[j]
  }
}
