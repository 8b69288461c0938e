/**
 * Page classification over a recognition result: separator pages (a line that,
 * upper-cased, contains both "SEPARATOR" and "INVOICE") and blank pages (no
 * lines at all). Both are a filter over `recognitionResults` followed by a
 * projection onto the page number, so the output follows the input's order
 * and keeps its duplicates.
 */
module PageClassifier {
  import opened Models
  import Text

  /** A line marks a separator page when its upper-cased text contains both tokens. */
  predicate IsSplitterLine(l: Line) {
    Text.Contains(Text.ToUpper(l.text), "SEPARATOR") && Text.Contains(Text.ToUpper(l.text), "INVOICE")
  }

  /** Some line of the page marks it as a separator. */
  predicate IsSplitterResult(r: RecognitionResult) {
    exists i :: 0 <= i < |r.lines| && IsSplitterLine(r.lines[i])
  }

  /** A page is blank exactly when no line was recognised on it. */
  predicate IsBlankResult(r: RecognitionResult) {
    |r.lines| == 0
  }

  /**
   * The positions `lo..|rs|-1` of `rs` whose result `keep` accepts, in
   * increasing order: the positions the filter lets through.
   */
  ghost function Picks(rs: seq<RecognitionResult>, keep: RecognitionResult -> bool, lo: nat): (ix: seq<int>)
    ensures StrictlyIncreasing(ix)
    ensures forall k :: 0 <= k < |ix| ==> lo <= ix[k] < |rs| && keep(rs[ix[k]])
    ensures forall i :: lo <= i < |rs| && keep(rs[i]) ==> i in ix
    decreases |rs| - lo
  {
    if lo >= |rs| then []
    else if keep(rs[lo]) then [lo] + Picks(rs, keep, lo + 1)
    else Picks(rs, keep, lo + 1)
  }

  /**
   * The page numbers of the results at positions `lo..|rs|-1` that `keep`
   * accepts, in the order of `rs`, one entry per accepted result.
   */
  function PagesWhere(rs: seq<RecognitionResult>, keep: RecognitionResult -> bool, lo: nat): (pages: seq<int>)
    ensures |pages| == |Picks(rs, keep, lo)|
    ensures forall k :: 0 <= k < |pages| ==> pages[k] == rs[Picks(rs, keep, lo)[k]].page
    decreases |rs| - lo
  {
    if lo >= |rs| then []
    else if keep(rs[lo]) then [rs[lo].page] + PagesWhere(rs, keep, lo + 1)
    else PagesWhere(rs, keep, lo + 1)
  }

  /** A page number is listed exactly when some result with that number is accepted. */
  lemma PagesWhereMembers(rs: seq<RecognitionResult>, keep: RecognitionResult -> bool)
    ensures forall p :: p in PagesWhere(rs, keep, 0) <==> exists i :: 0 <= i < |rs| && keep(rs[i]) && rs[i].page == p
  {
    var pages, ix := PagesWhere(rs, keep, 0), Picks(rs, keep, 0);
    forall i | 0 <= i < |rs| && keep(rs[i]) ensures rs[i].page in pages {
      var k :| 0 <= k < |ix| && ix[k] == i;
      assert pages[k] == rs[i].page;
    }
  }

  /** The page numbers of the separator pages, in the order of the recognition results. */
  function FindSplitterPages(batch: BatchResult): (pages: seq<int>)
    ensures |pages| <= |batch.recognitionResults|
    ensures forall p :: p in pages <==>
      exists i :: 0 <= i < |batch.recognitionResults| && batch.recognitionResults[i].page == p
                  && IsSplitterResult(batch.recognitionResults[i])
    ensures |pages| == |Picks(batch.recognitionResults, IsSplitterResult, 0)|
    ensures forall k :: 0 <= k < |pages| ==>
      pages[k] == batch.recognitionResults[Picks(batch.recognitionResults, IsSplitterResult, 0)[k]].page
  {
    PicksBound(batch.recognitionResults, IsSplitterResult, 0);
    PagesWhereMembers(batch.recognitionResults, IsSplitterResult);
    PagesWhere(batch.recognitionResults, IsSplitterResult, 0)
  }

  /** The page numbers of the blank pages, in the order of the recognition results. */
  function FindBlankPages(batch: BatchResult): (pages: seq<int>)
    ensures |pages| <= |batch.recognitionResults|
    ensures forall p :: p in pages <==>
      exists i :: 0 <= i < |batch.recognitionResults| && batch.recognitionResults[i].page == p
                  && |batch.recognitionResults[i].lines| == 0
    ensures |pages| == |Picks(batch.recognitionResults, IsBlankResult, 0)|
    ensures forall k :: 0 <= k < |pages| ==>
      pages[k] == batch.recognitionResults[Picks(batch.recognitionResults, IsBlankResult, 0)[k]].page
  {
    PicksBound(batch.recognitionResults, IsBlankResult, 0);
    PagesWhereMembers(batch.recognitionResults, IsBlankResult);
    PagesWhere(batch.recognitionResults, IsBlankResult, 0)
  }

  /** The filter never lets through more results than it is given. */
  lemma {:induction false} PicksBound(rs: seq<RecognitionResult>, keep: RecognitionResult -> bool, lo: nat)
    requires lo <= |rs|
    ensures |Picks(rs, keep, lo)| <= |rs| - lo
    decreases |rs| - lo
  {
    if lo < |rs| {
      PicksBound(rs, keep, lo + 1);
    }
  }
}
