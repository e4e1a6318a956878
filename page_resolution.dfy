/** Resolving a named destination's target page object to a page number.
    The source compares the target with every page of the document, from the
    last page back to the first, and keeps the first match it meets; page
    numbers are 1-based and 0 stands for "no page matched". */
module PageResolution {

  /** The greatest k in 1..|pages| with pages[k - 1] == target, or 0 if the
      target is not among the pages. */
  function LastPageNumber<P(==)>(pages: seq<P>, target: P): (k: nat)
    ensures k <= |pages|
    ensures k == 0 <==> target !in pages
    ensures k > 0 ==> pages[k - 1] == target
    ensures forall m :: k <= m < |pages| ==> pages[m] != target
  {
    if |pages| == 0 then 0
    else if pages[|pages| - 1] == target then |pages|
    else LastPageNumber(pages[..|pages| - 1], target)
  }

  /** The backward scan with its early exit. */
  method ResolvePage<P(==)>(pages: seq<P>, target: P) returns (pageNumber: nat)
    ensures pageNumber == LastPageNumber(pages, target)
  {
    pageNumber := 0;
    var k := |pages|;
    while k > 0
      invariant 0 <= k <= |pages|
      invariant forall m :: k <= m < |pages| ==> pages[m] != target
    {
      if pages[k - 1] == target {
        pageNumber := k;
        break;
      }
      k := k - 1;
    }
  }

  /** The forward scan: the least k in 1..|pages| whose page is the target, or 0. */
  function FirstPageNumber<P(==)>(pages: seq<P>, target: P): (k: nat)
    ensures k <= |pages|
    ensures k == 0 <==> target !in pages
    ensures k > 0 ==> pages[k - 1] == target
    ensures forall m :: 0 <= m < k - 1 ==> pages[m] != target
  {
    if |pages| == 0 then 0
    else if pages[0] == target then 1
    else
      var k := FirstPageNumber(pages[1..], target);
      if k == 0 then 0 else k + 1
  }

  /** The target page object occurs at most once among the pages. */
  predicate OccursAtMostOnce<P(==)>(pages: seq<P>, target: P) {
    forall i, j :: 0 <= i < j < |pages| && pages[i] == target ==> pages[j] != target
  }

  /** Scanning backward finds the same page as scanning forward exactly when
      the target occurs at most once; both report 0 for an absent target. */
  lemma ScanDirectionAgrees<P>(pages: seq<P>, target: P)
    ensures OccursAtMostOnce(pages, target) <==> LastPageNumber(pages, target) == FirstPageNumber(pages, target)
  {
  }

  /** A document whose page object appears twice: the scans disagree. */
  lemma ScanDirectionMatters()
    ensures LastPageNumber([7, 7], 7) == 2 && FirstPageNumber([7, 7], 7) == 1
  {
  }
}
