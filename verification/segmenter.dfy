/**
 * Document segmentation: the page loop of the splitter. Pages are the 1-based
 * indices `1..count` of the source PDF; an output document is the sequence of
 * page indices copied into it, and saving a document appends a snapshot of
 * the accumulator to the list of outputs.
 */
module Segmenter {
  import opened Models

  /** The pages among `1..n` that the loop does not skip: the separator pages and the non-blank pages. */
  function Visited(n: nat, splitterPages: seq<int>, blankPages: seq<int>): seq<int> {
    if n == 0 then [] else Visited(n - 1, splitterPages, blankPages) + if n in splitterPages || n !in blankPages then [n] else []
  }

  /** Each page the loop visits, once and in increasing order. */
  lemma {:induction false} VisitedFacts(n: nat, splitterPages: seq<int>, blankPages: seq<int>)
    ensures StrictlyIncreasing(Visited(n, splitterPages, blankPages))
    ensures forall p :: p in Visited(n, splitterPages, blankPages) <==> 1 <= p <= n && (p in splitterPages || p !in blankPages)
  {
    if n > 0 {
      VisitedFacts(n - 1, splitterPages, blankPages);
      var before := Visited(n - 1, splitterPages, blankPages);
      assert forall i :: 0 <= i < |before| ==> before[i] in before;
    }
  }

  /** The pages among `1..n` that are copied: neither separator nor blank. */
  function Kept(n: nat, splitterPages: seq<int>, blankPages: seq<int>): seq<int> {
    if n == 0 then [] else Kept(n - 1, splitterPages, blankPages) + if n !in splitterPages && n !in blankPages then [n] else []
  }

  /** Each page that is neither separator nor blank, once and in increasing order. */
  lemma {:induction false} KeptFacts(n: nat, splitterPages: seq<int>, blankPages: seq<int>)
    ensures StrictlyIncreasing(Kept(n, splitterPages, blankPages))
    ensures forall p :: p in Kept(n, splitterPages, blankPages) <==> 1 <= p <= n && p !in splitterPages && p !in blankPages
  {
    if n > 0 {
      KeptFacts(n - 1, splitterPages, blankPages);
      var before := Kept(n - 1, splitterPages, blankPages);
      assert forall i :: 0 <= i < |before| ==> before[i] in before;
    }
  }

  /** The separator pages among `1..n`. */
  function SeparatorsUpTo(n: nat, splitterPages: seq<int>): seq<int> {
    if n == 0 then [] else SeparatorsUpTo(n - 1, splitterPages) + if n in splitterPages then [n] else []
  }

  /** Each separator page of the range, once and in increasing order, however often the list names it. */
  lemma {:induction false} SeparatorsUpToFacts(n: nat, splitterPages: seq<int>)
    ensures StrictlyIncreasing(SeparatorsUpTo(n, splitterPages))
    ensures forall p :: p in SeparatorsUpTo(n, splitterPages) <==> 1 <= p <= n && p in splitterPages
  {
    if n > 0 {
      SeparatorsUpToFacts(n - 1, splitterPages);
      var before := SeparatorsUpTo(n - 1, splitterPages);
      assert forall i :: 0 <= i < |before| ==> before[i] in before;
    }
  }

  /** The blank pages among `1..n` that are not separators. */
  function BlanksUpTo(n: nat, splitterPages: seq<int>, blankPages: seq<int>): seq<int> {
    if n == 0 then [] else BlanksUpTo(n - 1, splitterPages, blankPages) + if n !in splitterPages && n in blankPages then [n] else []
  }

  /** Each blank page of the range that is not a separator, once and in increasing order. */
  lemma {:induction false} BlanksUpToFacts(n: nat, splitterPages: seq<int>, blankPages: seq<int>)
    ensures StrictlyIncreasing(BlanksUpTo(n, splitterPages, blankPages))
    ensures forall p :: p in BlanksUpTo(n, splitterPages, blankPages) <==> 1 <= p <= n && p !in splitterPages && p in blankPages
  {
    if n > 0 {
      BlanksUpToFacts(n - 1, splitterPages, blankPages);
      var before := BlanksUpTo(n - 1, splitterPages, blankPages);
      assert forall i :: 0 <= i < |before| ==> before[i] in before;
    }
  }

  /** The elements of `xs` that are separators, in order. */
  function Separators(xs: seq<int>, splitterPages: seq<int>): seq<int> {
    if xs == [] then []
    else (if xs[0] in splitterPages then [xs[0]] else []) + Separators(xs[1..], splitterPages)
  }

  /** The elements of `xs` that are not separators, in order. */
  function NonSeparators(xs: seq<int>, splitterPages: seq<int>): seq<int> {
    if xs == [] then []
    else (if xs[0] in splitterPages then [] else [xs[0]]) + NonSeparators(xs[1..], splitterPages)
  }

  /**
   * Cuts `xs` at every separator: the separators themselves are dropped, and
   * each one ends a piece, so `k` separators give `k + 1` pieces, some of
   * them possibly empty.
   */
  function SplitAtSeparators(xs: seq<int>, splitterPages: seq<int>): (docs: seq<seq<int>>)
    ensures |docs| >= 1
  {
    if xs == [] then [[]]
    else
      var rest := SplitAtSeparators(xs[1..], splitterPages);
      if xs[0] in splitterPages then [[]] + rest
      else [[xs[0]] + rest[0]] + rest[1..]
  }

  /** All the documents' pages, one document after the other. */
  function Concat(docs: seq<seq<int>>): seq<int> {
    if docs == [] then [] else docs[0] + Concat(docs[1..])
  }

  predicate LastPageIsSeparator(count: nat, splitterPages: seq<int>) {
    count >= 1 && count in splitterPages
  }

  /**
   * The documents the page loop saves, in order. Normally this is the split
   * of the visited pages at the separators. When the last page is a separator
   * the accumulator saved there is not replaced, so the save after the loop
   * stores the same pages a second time.
   */
  function Expected(count: nat, splitterPages: seq<int>, blankPages: seq<int>): (docs: seq<seq<int>>)
  {
    if LastPageIsSeparator(count, splitterPages) then
      var saved := SplitAtSeparators(Visited(count - 1, splitterPages, blankPages), splitterPages);
      saved + [saved[|saved| - 1]]
    else
      SplitAtSeparators(Visited(count, splitterPages, blankPages), splitterPages)
  }

  /**
   * The page loop: a separator page saves the accumulator (and starts a new
   * one unless it is the last page), a blank page is skipped, and any other
   * page is appended to the accumulator; the accumulator is saved once more
   * after the loop.
   */
  method SplitFile(count: nat, splitterPages: seq<int>, blankPages: seq<int>) returns (outputFiles: seq<seq<int>>)
    ensures outputFiles == Expected(count, splitterPages, blankPages)
  {
    outputFiles := [];
    var newDocument: seq<int> := [];
    for idx := 0 to count
      invariant !(idx == count && LastPageIsSeparator(count, splitterPages)) ==>
        outputFiles + [newDocument] == SplitAtSeparators(Visited(idx, splitterPages, blankPages), splitterPages)
      invariant idx == count && LastPageIsSeparator(count, splitterPages) ==>
        outputFiles == SplitAtSeparators(Visited(idx - 1, splitterPages, blankPages), splitterPages)
        && outputFiles != [] && newDocument == outputFiles[|outputFiles| - 1]
    {
      ghost var visited := Visited(idx, splitterPages, blankPages);
      VisitedStep(idx, splitterPages, blankPages);
      if idx + 1 in splitterPages {
        SplitSnocSeparator(visited, idx + 1, splitterPages);
        outputFiles := outputFiles + [newDocument];
        if idx + 1 < count {
          newDocument := [];
        }
      } else if idx + 1 !in blankPages {
        SplitSnocPage(visited, idx + 1, splitterPages);
        assert (outputFiles + [newDocument])[..|outputFiles|] == outputFiles;
        newDocument := newDocument + [idx + 1];
      } else {
        assert visited + [] == visited;
      }
    }
    outputFiles := outputFiles + [newDocument];
  }

  /** One more page is visited exactly when it is a separator or not blank. */
  lemma VisitedStep(n: nat, splitterPages: seq<int>, blankPages: seq<int>)
    ensures Visited(n + 1, splitterPages, blankPages) ==
      Visited(n, splitterPages, blankPages) + if n + 1 in splitterPages || n + 1 !in blankPages then [n + 1] else []
  {
  }

  /**
   * The split after page `n + 1`, from the split after page `n`: a separator
   * opens a new empty piece, a blank page changes nothing, and any other page
   * extends the last piece.
   */
  lemma SplitVisitedStep(n: nat, splitterPages: seq<int>, blankPages: seq<int>)
    ensures var docs := SplitAtSeparators(Visited(n, splitterPages, blankPages), splitterPages);
      SplitAtSeparators(Visited(n + 1, splitterPages, blankPages), splitterPages) ==
        if n + 1 in splitterPages then docs + [[]]
        else if n + 1 in blankPages then docs
        else docs[..|docs| - 1] + [docs[|docs| - 1] + [n + 1]]
  {
    var visited := Visited(n, splitterPages, blankPages);
    VisitedStep(n, splitterPages, blankPages);
    if n + 1 in splitterPages {
      SplitSnocSeparator(visited, n + 1, splitterPages);
    } else if n + 1 !in blankPages {
      SplitSnocPage(visited, n + 1, splitterPages);
    } else {
      assert visited + [] == visited;
    }
  }

  /** Splitting after one more separator page opens a new, empty piece. */
  lemma {:induction false} SplitSnocSeparator(xs: seq<int>, x: int, splitterPages: seq<int>)
    requires x in splitterPages
    ensures SplitAtSeparators(xs + [x], splitterPages) == SplitAtSeparators(xs, splitterPages) + [[]]
  {
    if xs == [] {
      assert xs + [x] == [x] && [x][1..] == [];
    } else {
      assert (xs + [x])[1..] == xs[1..] + [x];
      SplitSnocSeparator(xs[1..], x, splitterPages);
    }
  }

  /** Splitting a sequence that starts with `y`: one unfolding of the definition. */
  lemma SplitCons(y: int, t: seq<int>, splitterPages: seq<int>)
    ensures var rest := SplitAtSeparators(t, splitterPages);
      SplitAtSeparators([y] + t, splitterPages) ==
        if y in splitterPages then [[]] + rest else [[y] + rest[0]] + rest[1..]
  {
    assert ([y] + t)[0] == y && ([y] + t)[1..] == t;
  }

  /** Splitting after one more page that is not a separator extends the last piece with it. */
  lemma {:induction false} SplitSnocPage(xs: seq<int>, x: int, splitterPages: seq<int>)
    requires x !in splitterPages
    ensures var docs := SplitAtSeparators(xs, splitterPages);
      SplitAtSeparators(xs + [x], splitterPages) == docs[..|docs| - 1] + [docs[|docs| - 1] + [x]]
  {
    if xs == [] {
      SplitCons(x, [], splitterPages);
      assert xs + [x] == [x] + [];
      assert [x] + [] == [] + [x];
    } else {
      var y, t := xs[0], xs[1..];
      assert xs == [y] + t && xs + [x] == [y] + (t + [x]);
      SplitSnocPage(t, x, splitterPages);
      SplitCons(y, t, splitterPages);
      SplitCons(y, t + [x], splitterPages);
      ExtendLastAfterCons(y, y in splitterPages, SplitAtSeparators(t, splitterPages), SplitAtSeparators(t + [x], splitterPages), x);
    }
  }

  /**
   * The sequence fact behind SplitSnocPage: putting a first page (or an empty
   * piece, for a separator) in front of the pieces commutes with extending
   * the last piece.
   */
  lemma ExtendLastAfterCons(y: int, separator: bool, d: seq<seq<int>>, d': seq<seq<int>>, x: int)
    requires |d| >= 1
    requires d' == d[..|d| - 1] + [d[|d| - 1] + [x]]
    ensures var docs := if separator then [[]] + d else [[y] + d[0]] + d[1..];
      (if separator then [[]] + d' else [[y] + d'[0]] + d'[1..]) == docs[..|docs| - 1] + [docs[|docs| - 1] + [x]]
  {
    var last := d[|d| - 1] + [x];
    if separator {
      assert ([[]] + d)[..|d|] == [[]] + d[..|d| - 1];
    } else if |d| == 1 {
      assert d' == [last];
      assert [y] + last == ([y] + d[0]) + [x];
    } else {
      var docs := [[y] + d[0]] + d[1..];
      assert d'[0] == d[0] && d'[1..] == d[1..|d| - 1] + [last];
      assert docs[..|docs| - 1] == [[y] + d[0]] + d[1..|d| - 1];
    }
  }

  /** Picking out the separators distributes over concatenation. */
  lemma {:induction false} SeparatorsAppend(a: seq<int>, b: seq<int>, splitterPages: seq<int>)
    ensures Separators(a + b, splitterPages) == Separators(a, splitterPages) + Separators(b, splitterPages)
  {
    if a == [] {
      assert a + b == b;
    } else {
      var head := if a[0] in splitterPages then [a[0]] else [];
      assert (a + b)[0] == a[0] && (a + b)[1..] == a[1..] + b;
      SeparatorsAppend(a[1..], b, splitterPages);
      assert Separators(a + b, splitterPages) == head + (Separators(a[1..], splitterPages) + Separators(b, splitterPages));
      assert Separators(a, splitterPages) == head + Separators(a[1..], splitterPages);
    }
  }

  /** Dropping the separators distributes over concatenation. */
  lemma {:induction false} NonSeparatorsAppend(a: seq<int>, b: seq<int>, splitterPages: seq<int>)
    ensures NonSeparators(a + b, splitterPages) == NonSeparators(a, splitterPages) + NonSeparators(b, splitterPages)
  {
    if a == [] {
      assert a + b == b;
    } else {
      var head := if a[0] in splitterPages then [] else [a[0]];
      assert (a + b)[0] == a[0] && (a + b)[1..] == a[1..] + b;
      NonSeparatorsAppend(a[1..], b, splitterPages);
      assert NonSeparators(a + b, splitterPages) == head + (NonSeparators(a[1..], splitterPages) + NonSeparators(b, splitterPages));
      assert NonSeparators(a, splitterPages) == head + NonSeparators(a[1..], splitterPages);
    }
  }

  /** Splitting at `k` separators gives `k + 1` pieces. */
  lemma {:induction false} SplitLength(xs: seq<int>, splitterPages: seq<int>)
    ensures |SplitAtSeparators(xs, splitterPages)| == |Separators(xs, splitterPages)| + 1
  {
    if xs != [] {
      SplitLength(xs[1..], splitterPages);
    }
  }

  /** Gluing the pieces back together gives back every page but the separators, in order. */
  lemma {:induction false} SplitConcat(xs: seq<int>, splitterPages: seq<int>)
    ensures Concat(SplitAtSeparators(xs, splitterPages)) == NonSeparators(xs, splitterPages)
  {
    if xs != [] {
      SplitConcat(xs[1..], splitterPages);
      var rest := SplitAtSeparators(xs[1..], splitterPages);
      if xs[0] in splitterPages {
        assert ([[]] + rest)[1..] == rest;
      } else {
        assert ([[xs[0]] + rest[0]] + rest[1..])[1..] == rest[1..];
        assert Concat(rest) == rest[0] + Concat(rest[1..]);
      }
    }
  }

  /** Every page of every piece is a page of `xs` that is not a separator. */
  lemma {:induction false} SplitPieces(xs: seq<int>, splitterPages: seq<int>)
    ensures forall j, p ::
      0 <= j < |SplitAtSeparators(xs, splitterPages)| && p in SplitAtSeparators(xs, splitterPages)[j] ==>
      p in xs && p !in splitterPages
  {
    if xs != [] {
      SplitPieces(xs[1..], splitterPages);
      var rest := SplitAtSeparators(xs[1..], splitterPages);
      var docs := SplitAtSeparators(xs, splitterPages);
      assert forall q :: q in xs[1..] ==> q in xs;
      forall j, p | 0 <= j < |docs| && p in docs[j] ensures p in xs && p !in splitterPages {
        if xs[0] in splitterPages {
          assert docs[j] == ([[]] + rest)[j];
          if j > 0 { assert docs[j] == rest[j - 1]; }
        } else if j == 0 {
          assert p == xs[0] || p in rest[0];
        } else {
          assert docs[j] == rest[j];
        }
      }
    }
  }

  /** The pieces of an increasing sequence are increasing. */
  lemma {:induction false} SplitPiecesIncreasing(xs: seq<int>, splitterPages: seq<int>)
    requires StrictlyIncreasing(xs)
    ensures forall j :: 0 <= j < |SplitAtSeparators(xs, splitterPages)| ==> StrictlyIncreasing(SplitAtSeparators(xs, splitterPages)[j])
  {
    if xs != [] {
      var rest := SplitAtSeparators(xs[1..], splitterPages);
      var docs := SplitAtSeparators(xs, splitterPages);
      SplitPiecesIncreasing(xs[1..], splitterPages);
      SplitPieces(xs[1..], splitterPages);
      if xs[0] !in splitterPages {
        var first := [xs[0]] + rest[0];
        forall i, k | 0 <= i < k < |first| ensures first[i] < first[k] {
          assert first[k] == rest[0][k - 1];
          assert rest[0][k - 1] in rest[0];
          assert first[k] in xs[1..];
          var m :| 0 <= m < |xs[1..]| && xs[1..][m] == first[k];
          if i > 0 { assert first[i] == rest[0][i - 1]; }
        }
        forall j | 0 < j < |docs| ensures StrictlyIncreasing(docs[j]) {
          assert docs[j] == rest[j];
        }
      } else {
        forall j | 0 < j < |docs| ensures StrictlyIncreasing(docs[j]) {
          assert docs[j] == rest[j - 1];
        }
      }
    }
  }

  /** The separators the loop visits are the separator pages among `1..n`, and the others are the kept pages. */
  lemma {:induction false} VisitedSplit(n: nat, splitterPages: seq<int>, blankPages: seq<int>)
    ensures Separators(Visited(n, splitterPages, blankPages), splitterPages) == SeparatorsUpTo(n, splitterPages)
    ensures NonSeparators(Visited(n, splitterPages, blankPages), splitterPages) == Kept(n, splitterPages, blankPages)
  {
    if n > 0 {
      VisitedSplit(n - 1, splitterPages, blankPages);
      VisitedStep(n - 1, splitterPages, blankPages);
      var tail := if n in splitterPages || n !in blankPages then [n] else [];
      SeparatorsAppend(Visited(n - 1, splitterPages, blankPages), tail, splitterPages);
      NonSeparatorsAppend(Visited(n - 1, splitterPages, blankPages), tail, splitterPages);
      assert SeparatorsUpTo(n, splitterPages) == SeparatorsUpTo(n - 1, splitterPages) + if n in splitterPages then [n] else [];
      assert Kept(n, splitterPages, blankPages) == Kept(n - 1, splitterPages, blankPages) + if n !in splitterPages && n !in blankPages then [n] else [];
      if tail == [] {
        assert Separators(tail, splitterPages) == [] && NonSeparators(tail, splitterPages) == [];
      } else {
        assert tail[1..] == [];
      }
    }
  }

  /** Splitting after one more page keeps every piece but the last one. */
  lemma SplitSnocPrefix(xs: seq<int>, x: int, splitterPages: seq<int>)
    ensures var docs := SplitAtSeparators(xs, splitterPages);
      var docs' := SplitAtSeparators(xs + [x], splitterPages);
      |docs| <= |docs'| && docs'[..|docs| - 1] == docs[..|docs| - 1]
  {
    var docs := SplitAtSeparators(xs, splitterPages);
    if x in splitterPages {
      SplitSnocSeparator(xs, x, splitterPages);
      assert (docs + [[]])[..|docs| - 1] == docs[..|docs| - 1];
    } else {
      SplitSnocPage(xs, x, splitterPages);
      assert (docs[..|docs| - 1] + [docs[|docs| - 1] + [x]])[..|docs| - 1] == docs[..|docs| - 1];
    }
  }

  /** Visiting more pages only changes the last piece and adds new ones: the earlier pieces are final. */
  lemma {:induction false} SplitPrefixStable(m: nat, n: nat, splitterPages: seq<int>, blankPages: seq<int>)
    requires m <= n
    ensures var early := SplitAtSeparators(Visited(m, splitterPages, blankPages), splitterPages);
      var late := SplitAtSeparators(Visited(n, splitterPages, blankPages), splitterPages);
      |early| <= |late| && late[..|early| - 1] == early[..|early| - 1]
    decreases n - m
  {
    if m < n {
      SplitPrefixStable(m, n - 1, splitterPages, blankPages);
      var visited := Visited(n - 1, splitterPages, blankPages);
      var early := SplitAtSeparators(Visited(m, splitterPages, blankPages), splitterPages);
      var mid := SplitAtSeparators(visited, splitterPages);
      var late := SplitAtSeparators(Visited(n, splitterPages, blankPages), splitterPages);
      VisitedStep(n - 1, splitterPages, blankPages);
      if n in splitterPages || n !in blankPages {
        SplitSnocPrefix(visited, n, splitterPages);
      } else {
        assert visited + [] == visited;
      }
      assert |mid| <= |late| && late[..|mid| - 1] == mid[..|mid| - 1];
      assert late[..|early| - 1] == late[..|mid| - 1][..|early| - 1];
    }
  }

  // Properties of the documents the page loop saves.

  /** The number of saved documents is the number of distinct separator pages among `1..count`, plus one. */
  lemma OutputCount(count: nat, splitterPages: seq<int>, blankPages: seq<int>)
    ensures |Expected(count, splitterPages, blankPages)| == |SeparatorsUpTo(count, splitterPages)| + 1
  {
    var n := LastVisited(count, splitterPages);
    SplitLength(Visited(n, splitterPages, blankPages), splitterPages);
    VisitedSplit(n, splitterPages, blankPages);
    if LastPageIsSeparator(count, splitterPages) {
      assert SeparatorsUpTo(count, splitterPages) == SeparatorsUpTo(n, splitterPages) + [count];
    }
  }

  /** The pages visited up to the last page, or up to the one before it when that one is a separator. */
  function LastVisited(count: nat, splitterPages: seq<int>): nat {
    if LastPageIsSeparator(count, splitterPages) then count - 1 else count
  }

  /** Every saved document is one of the pieces of the split; the repeated last save is the last piece. */
  lemma ExpectedPieces(count: nat, splitterPages: seq<int>, blankPages: seq<int>)
    ensures var saved := SplitAtSeparators(Visited(LastVisited(count, splitterPages), splitterPages, blankPages), splitterPages);
      var docs := Expected(count, splitterPages, blankPages);
      forall j :: 0 <= j < |docs| ==> docs[j] == saved[if j < |saved| then j else |saved| - 1]
  {
  }

  /** A page found in one saved document lies within `1..count` and is neither a separator nor blank. */
  lemma CopiedPage(count: nat, splitterPages: seq<int>, blankPages: seq<int>, j: int, p: int)
    requires 0 <= j < |Expected(count, splitterPages, blankPages)|
    requires p in Expected(count, splitterPages, blankPages)[j]
    ensures 1 <= p <= count && p !in splitterPages && p !in blankPages
  {
    var n := LastVisited(count, splitterPages);
    var visited := Visited(n, splitterPages, blankPages);
    var saved := SplitAtSeparators(visited, splitterPages);
    ExpectedPieces(count, splitterPages, blankPages);
    SplitPieces(visited, splitterPages);
    VisitedFacts(n, splitterPages, blankPages);
    var k := if j < |saved| then j else |saved| - 1;
    assert p in saved[k];
    assert p in visited && p !in splitterPages;
  }

  /** Only pages that are neither separators nor blank, and lie within `1..count`, are ever copied. */
  lemma NoSeparatorCopied(count: nat, splitterPages: seq<int>, blankPages: seq<int>)
    ensures forall doc, p :: doc in Expected(count, splitterPages, blankPages) && p in doc ==>
      1 <= p <= count && p !in splitterPages && p !in blankPages
  {
    var docs := Expected(count, splitterPages, blankPages);
    forall doc, p | doc in docs && p in doc
      ensures 1 <= p <= count && p !in splitterPages && p !in blankPages
    {
      var j :| 0 <= j < |docs| && docs[j] == doc;
      CopiedPage(count, splitterPages, blankPages, j, p);
    }
  }

  /** Each saved document lists its pages in increasing order, without repeats. */
  lemma DocumentsIncreasing(count: nat, splitterPages: seq<int>, blankPages: seq<int>)
    ensures forall j :: 0 <= j < |Expected(count, splitterPages, blankPages)| ==>
      StrictlyIncreasing(Expected(count, splitterPages, blankPages)[j])
  {
    var n := LastVisited(count, splitterPages);
    var visited := Visited(n, splitterPages, blankPages);
    var saved := SplitAtSeparators(visited, splitterPages);
    var docs := Expected(count, splitterPages, blankPages);
    ExpectedPieces(count, splitterPages, blankPages);
    VisitedFacts(n, splitterPages, blankPages);
    SplitPiecesIncreasing(visited, splitterPages);
    forall j | 0 <= j < |docs| ensures StrictlyIncreasing(docs[j]) {
      var k := if j < |saved| then j else |saved| - 1;
      assert StrictlyIncreasing(saved[k]);
    }
  }

  /**
   * Reading the saved documents one after the other (leaving out the repeated
   * last save when the last page is a separator) gives every page that is
   * neither separator nor blank, in increasing order, each exactly once.
   */
  lemma CopiedPagesInOrder(count: nat, splitterPages: seq<int>, blankPages: seq<int>)
    ensures var docs := Expected(count, splitterPages, blankPages);
      Concat(if LastPageIsSeparator(count, splitterPages) then docs[..|docs| - 1] else docs)
      == Kept(count, splitterPages, blankPages)
  {
    var n := LastVisited(count, splitterPages);
    var docs := Expected(count, splitterPages, blankPages);
    SplitConcat(Visited(n, splitterPages, blankPages), splitterPages);
    VisitedSplit(n, splitterPages, blankPages);
    if LastPageIsSeparator(count, splitterPages) {
      assert docs[..|docs| - 1] == SplitAtSeparators(Visited(n, splitterPages, blankPages), splitterPages);
      assert Kept(count, splitterPages, blankPages) == Kept(n, splitterPages, blankPages) + [];
    }
  }

  /**
   * Without a separator page among `1..count` there is one document, holding
   * the kept pages: here every non-blank page among `1..count`, in order.
   */
  lemma NoSeparatorsOneDocument(count: nat, splitterPages: seq<int>, blankPages: seq<int>)
    requires forall p :: 1 <= p <= count ==> p !in splitterPages
    ensures Expected(count, splitterPages, blankPages) == [Kept(count, splitterPages, blankPages)]
  {
    var docs := Expected(count, splitterPages, blankPages);
    OutputCount(count, splitterPages, blankPages);
    NoSeparatorsUpTo(count, splitterPages);
    CopiedPagesInOrder(count, splitterPages, blankPages);
    assert |docs| == 1 && docs[1..] == [];
    assert Concat(docs) == docs[0] + Concat(docs[1..]) == docs[0];
    assert docs == [docs[0]];
  }

  lemma {:induction false} NoSeparatorsUpTo(n: nat, splitterPages: seq<int>)
    requires forall p :: 1 <= p <= n ==> p !in splitterPages
    ensures SeparatorsUpTo(n, splitterPages) == []
  {
    if n > 0 {
      NoSeparatorsUpTo(n - 1, splitterPages);
    }
  }

  /** When the last page is a separator, the last two saved documents are the same pages. */
  lemma LastPageSeparatorRepeatsLastDocument(count: nat, splitterPages: seq<int>, blankPages: seq<int>)
    requires LastPageIsSeparator(count, splitterPages)
    ensures var docs := Expected(count, splitterPages, blankPages);
      |docs| >= 2 && docs[|docs| - 1] == docs[|docs| - 2]
  {
  }

  /** Splitting just after two adjacent separators ends in an empty piece between them. */
  lemma AdjacentSeparatorsPiece(i: nat, splitterPages: seq<int>, blankPages: seq<int>)
    requires 1 <= i
    requires i in splitterPages && i + 1 in splitterPages
    ensures var early := SplitAtSeparators(Visited(i + 1, splitterPages, blankPages), splitterPages);
      |early| == |SeparatorsUpTo(i, splitterPages)| + 2 && early[|SeparatorsUpTo(i, splitterPages)|] == []
  {
    var before := Visited(i - 1, splitterPages, blankPages);
    var m := |SplitAtSeparators(before, splitterPages)|;
    VisitedStep(i - 1, splitterPages, blankPages);
    VisitedStep(i, splitterPages, blankPages);
    assert Visited(i + 1, splitterPages, blankPages) == (before + [i]) + [i + 1];
    SplitSnocSeparator(before, i, splitterPages);
    SplitSnocSeparator(before + [i], i + 1, splitterPages);
    SplitLength(before, splitterPages);
    VisitedSplit(i - 1, splitterPages, blankPages);
    assert SeparatorsUpTo(i, splitterPages) == SeparatorsUpTo(i - 1, splitterPages) + [i];
  }

  /** Two adjacent separator pages before the last page enclose an empty document. */
  lemma AdjacentSeparatorsEmptyDocument(count: nat, splitterPages: seq<int>, blankPages: seq<int>, i: nat)
    requires 1 <= i && i + 1 < count
    requires i in splitterPages && i + 1 in splitterPages
    ensures var docs := Expected(count, splitterPages, blankPages);
      |SeparatorsUpTo(i, splitterPages)| < |docs| - 1 && docs[|SeparatorsUpTo(i, splitterPages)|] == []
  {
    var n := LastVisited(count, splitterPages);
    var m := |SeparatorsUpTo(i, splitterPages)|;
    var early := SplitAtSeparators(Visited(i + 1, splitterPages, blankPages), splitterPages);
    var saved := SplitAtSeparators(Visited(n, splitterPages, blankPages), splitterPages);
    AdjacentSeparatorsPiece(i, splitterPages, blankPages);
    SplitPrefixStable(i + 1, n, splitterPages, blankPages);
    assert saved[m] == saved[..m + 1][m] == early[..m + 1][m];
    ExpectedPieces(count, splitterPages, blankPages);
  }

  /** Every page among `1..n` is exactly one of: copied, a separator, or a skipped blank page. */
  lemma {:induction false} CopiedPageCount(n: nat, splitterPages: seq<int>, blankPages: seq<int>)
    ensures |Kept(n, splitterPages, blankPages)| + |SeparatorsUpTo(n, splitterPages)| + |BlanksUpTo(n, splitterPages, blankPages)| == n
  {
    if n > 0 {
      CopiedPageCount(n - 1, splitterPages, blankPages);
      assert Kept(n, splitterPages, blankPages) == Kept(n - 1, splitterPages, blankPages) + if n !in splitterPages && n !in blankPages then [n] else [];
      assert SeparatorsUpTo(n, splitterPages) == SeparatorsUpTo(n - 1, splitterPages) + if n in splitterPages then [n] else [];
      assert BlanksUpTo(n, splitterPages, blankPages) == BlanksUpTo(n - 1, splitterPages, blankPages) + if n !in splitterPages && n in blankPages then [n] else [];
    }
  }
}
