/** The pagination strip under the results: page count, the numbered buttons with ellipses, and
    the Prev/Next buttons. */
module Pagination {
  import opened Common

  /** One entry of the strip: a page number button or an ellipsis. */
  datatype Item = Num(n: int) | Ellipsis

  /** At most this many pages are listed without ellipses. */
  const MaxListed: int := 7

  /** `Math.ceil(totalResults / perPage)`. */
  function TotalPages(totalResults: nat, perPage: nat): nat
    requires perPage >= 1
  {
    (totalResults + perPage - 1) / perPage
  }

  /** `TotalPages` is the least number of pages of `perPage` results that hold them all. */
  lemma TotalPagesIsCeiling(totalResults: nat, perPage: nat)
    requires perPage >= 1
    ensures var t := TotalPages(totalResults, perPage);
      t * perPage >= totalResults && (totalResults > 0 ==> (t - 1) * perPage < totalResults)
    ensures TotalPages(totalResults, perPage) == 0 <==> totalResults == 0
  {
    var t := TotalPages(totalResults, perPage);
    var m := totalResults + perPage - 1;
    var r := m % perPage;
    assert m == t * perPage + r && 0 <= r < perPage;
    assert (t - 1) * perPage == t * perPage - perPage;
    if totalResults == 0 {
      assert m < perPage;
    }
  }

  /** The strip is shown only when there is more than one page. */
  predicate Visible(totalPages: int) {
    totalPages > 1
  }

  /** The numbers `lo..hi`, inclusive, as buttons; empty when `lo > hi`. */
  function Nums(lo: int, hi: int): (r: seq<Item>)
    ensures |r| == if hi >= lo then hi - lo + 1 else 0
    ensures forall k :: 0 <= k < |r| ==> r[k] == Num(lo + k)
  {
    seq(if hi >= lo then hi - lo + 1 else 0, k => Num(lo + k))
  }

  function Max(a: int, b: int): int { if a >= b then a else b }
  function Min(a: int, b: int): int { if a <= b then a else b }

  /** A strip made of a first page, an optional ellipsis, the run `lo..hi`, an optional
      ellipsis and a last page. */
  function Assemble(first: int, lead: bool, lo: int, hi: int, trail: bool, last: int): seq<Item> {
    [Num(first)] + (if lead then [Ellipsis] else []) + Nums(lo, hi)
      + (if trail then [Ellipsis] else []) + [Num(last)]
  }

  /** The strip `getPageNumbers` builds: every page when there are at most seven; otherwise the
      first page, the current page and its neighbours, and the last page, with an ellipsis where
      pages are skipped. */
  function PageStrip(page: int, totalPages: int): (s: seq<Item>)
    ensures totalPages <= MaxListed ==>
      |s| == (if totalPages > 0 then totalPages else 0)
      && forall k :: 0 <= k < |s| ==> s[k] == Num(k + 1)
  {
    if totalPages <= MaxListed then Nums(1, totalPages)
    else
      Assemble(1, page > 3, Max(2, page - 1), Min(totalPages - 1, page + 1),
               page < totalPages - 2, totalPages)
  }

  /** `getPageNumbers`. */
  method GetPageNumbers(page: int, totalPages: int) returns (pages: seq<Item>)
    ensures pages == PageStrip(page, totalPages)
  {
    if totalPages <= MaxListed {
      return Nums(1, totalPages);
    }
    pages := [Num(1)];
    if page > 3 {
      pages := pages + [Ellipsis];
    }
    ghost var head := pages;
    var start := Max(2, page - 1);
    var end := Min(totalPages - 1, page + 1);
    var i := start;
    while i <= end
      invariant start <= i && (i <= end + 1 || i == start)
      invariant pages == head + Nums(start, i - 1)
    {
      assert Nums(start, i) == Nums(start, i - 1) + [Num(i)];
      pages := pages + [Num(i)];
      i := i + 1;
    }
    if page < totalPages - 2 {
      pages := pages + [Ellipsis];
    }
    pages := pages + [Num(totalPages)];
  }

  // ---------------------------------------------------------------------------
  // Properties of the strip
  // ---------------------------------------------------------------------------

  /** Page numbers increase strictly from left to right. */
  predicate Increasing(s: seq<Item>) {
    forall i, j :: 0 <= i < j < |s| && s[i].Num? && s[j].Num? ==> s[i].n < s[j].n
  }

  /** Adjacent numbers are consecutive, and an ellipsis sits between two numbers that are more
      than one apart. */
  predicate Spaced(s: seq<Item>) {
    && (forall i :: 0 <= i < |s| - 1 && s[i].Num? && s[i + 1].Num? ==> s[i + 1].n == s[i].n + 1)
    && (forall i :: 0 <= i < |s| && s[i].Ellipsis? ==>
          0 < i < |s| - 1 && s[i - 1].Num? && s[i + 1].Num? && s[i + 1].n > s[i - 1].n + 1)
  }

  /** The entry at each index of an assembled strip. */
  lemma AssembleAt(first: int, lead: bool, lo: int, hi: int, trail: bool, last: int, i: int)
    requires lo <= hi
    requires 0 <= i < |Assemble(first, lead, lo, hi, trail, last)|
    ensures var s, m := Assemble(first, lead, lo, hi, trail, last), if lead then 2 else 1;
      && |s| == m + (hi - lo + 1) + (if trail then 1 else 0) + 1
      && s[i] == if i == 0 then Num(first)
                 else if i == |s| - 1 then Num(last)
                 else if i < m then Ellipsis
                 else if i >= m + (hi - lo + 1) then Ellipsis
                 else Num(lo + i - m)
  {
    var lead', trail' := (if lead then [Ellipsis] else []), (if trail then [Ellipsis] else []);
    var mid := Nums(lo, hi);
    var s := Assemble(first, lead, lo, hi, trail, last);
    var m := |lead'| + 1;
    assert s == ([Num(first)] + lead') + mid + (trail' + [Num(last)]);
    if m <= i < m + |mid| {
      assert s[i] == mid[i - m];
    }
  }

  /** An assembled strip whose ellipses mark exactly the gaps: numbers strictly increase, are
      consecutive where adjacent, and each ellipsis sits between numbers more than one apart. */
  lemma AssembleShape(first: int, lead: bool, lo: int, hi: int, trail: bool, last: int)
    requires first < lo <= hi < last
    requires lead <==> lo > first + 1
    requires trail <==> last > hi + 1
    ensures var s := Assemble(first, lead, lo, hi, trail, last);
      Increasing(s) && Spaced(s)
  {
    var s := Assemble(first, lead, lo, hi, trail, last);
    forall i, j | 0 <= i < j < |s| && s[i].Num? && s[j].Num?
      ensures s[i].n < s[j].n
    {
      AssembleAt(first, lead, lo, hi, trail, last, i);
      AssembleAt(first, lead, lo, hi, trail, last, j);
    }
    forall i | 0 <= i < |s| - 1 && s[i].Num? && s[i + 1].Num?
      ensures s[i + 1].n == s[i].n + 1
    {
      AssembleAt(first, lead, lo, hi, trail, last, i);
      AssembleAt(first, lead, lo, hi, trail, last, i + 1);
    }
    forall i | 0 <= i < |s| && s[i].Ellipsis?
      ensures 0 < i < |s| - 1 && s[i - 1].Num? && s[i + 1].Num? && s[i + 1].n > s[i - 1].n + 1
    {
      AssembleAt(first, lead, lo, hi, trail, last, i);
      AssembleAt(first, lead, lo, hi, trail, last, i - 1);
      AssembleAt(first, lead, lo, hi, trail, last, i + 1);
    }
  }

  /** The long strip for a page in range is assembled from a run of one to three pages that
      lies strictly between the first and the last page. */
  lemma LongStripParts(page: int, totalPages: int)
    requires MaxListed < totalPages && 1 <= page <= totalPages
    ensures var lo, hi := Max(2, page - 1), Min(totalPages - 1, page + 1);
      && PageStrip(page, totalPages) == Assemble(1, page > 3, lo, hi, page < totalPages - 2, totalPages)
      && 1 < lo <= hi < totalPages && hi - lo <= 2
      && (page > 3 <==> lo > 2) && (page < totalPages - 2 <==> totalPages > hi + 1)
      && (1 < page < totalPages ==> lo <= page <= hi)
  {
  }

  /** The long strip for a page in range: at most seven entries, first page 1, last page
      `totalPages`, an ellipsis after the first exactly when `page > 3` and before the last
      exactly when `page < totalPages - 2`. */
  lemma LongStripEnds(page: int, totalPages: int)
    requires MaxListed < totalPages && 1 <= page <= totalPages
    ensures var s := PageStrip(page, totalPages);
      && 4 <= |s| <= MaxListed
      && s[0] == Num(1) && s[|s| - 1] == Num(totalPages)
      && (s[1] == Ellipsis <==> page > 3)
      && (s[|s| - 2] == Ellipsis <==> page < totalPages - 2)
  {
    LongStripParts(page, totalPages);
    var lo, hi := Max(2, page - 1), Min(totalPages - 1, page + 1);
    var lead, trail := page > 3, page < totalPages - 2;
    var s := PageStrip(page, totalPages);
    AssembleAt(1, lead, lo, hi, trail, totalPages, 0);
    AssembleAt(1, lead, lo, hi, trail, totalPages, 1);
    AssembleAt(1, lead, lo, hi, trail, totalPages, |s| - 2);
    AssembleAt(1, lead, lo, hi, trail, totalPages, |s| - 1);
  }

  /** The long strip for a page in range lists the current page, its numbers strictly increase,
      and they are consecutive unless separated by an ellipsis. */
  lemma LongStripOrder(page: int, totalPages: int)
    requires MaxListed < totalPages && 1 <= page <= totalPages
    ensures var s := PageStrip(page, totalPages);
      Num(page) in s && Increasing(s) && Spaced(s)
  {
    LongStripParts(page, totalPages);
    var lo, hi := Max(2, page - 1), Min(totalPages - 1, page + 1);
    var lead, trail := page > 3, page < totalPages - 2;
    var s := PageStrip(page, totalPages);
    AssembleShape(1, lead, lo, hi, trail, totalPages);
    AssembleAt(1, lead, lo, hi, trail, totalPages, 0);
    AssembleAt(1, lead, lo, hi, trail, totalPages, |s| - 1);
    if 1 < page < totalPages {
      AssembleAt(1, lead, lo, hi, trail, totalPages, (if lead then 2 else 1) + page - lo);
    }
  }

  // ---------------------------------------------------------------------------
  // Prev and Next
  // ---------------------------------------------------------------------------

  /** The page the Prev button asks for, `None` while it is disabled (on page 1 or before). For
      a page in range, the page asked for is in range too. */
  function PrevRequest(page: int, totalPages: int): (r: Option<int>)
    ensures r.Some? <==> page > 1
    ensures r.Some? ==> r.value == page - 1
    ensures 1 <= page <= totalPages && r.Some? ==> 1 <= r.value <= totalPages
  {
    if page <= 1 then None else Some(page - 1)
  }

  /** The page the Next button asks for, `None` while it is disabled (on the last page or
      after). For a page in range, the page asked for is in range too. */
  function NextRequest(page: int, totalPages: int): (r: Option<int>)
    ensures r.Some? <==> page < totalPages
    ensures r.Some? ==> r.value == page + 1
    ensures 1 <= page <= totalPages && r.Some? ==> 1 <= r.value <= totalPages
  {
    if page >= totalPages then None else Some(page + 1)
  }

  /** Whenever the strip is shown for a page in range, Prev or Next is enabled. */
  lemma SomeNavigationEnabled(page: int, totalPages: int)
    requires 1 <= page <= totalPages && Visible(totalPages)
    ensures PrevRequest(page, totalPages).Some? || NextRequest(page, totalPages).Some?
  {
  }
}
