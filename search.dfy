/** `GET /api/search`: post-filtering of the engine's ranked ids, pagination with 1-based ranks,
    and the word-boundary truncation of conclusions. */
module Search {
  import opened Common
  import opened Metadata

  // ---------------------------------------------------------------------------
  // Truncation
  // ---------------------------------------------------------------------------

  /** The default length limit of `_truncate`. */
  const MaxConclusion: nat := 300

  /** `str.rfind(c)`: the index of the last `c`, or -1. */
  function RFind(s: string, c: char): (r: int)
    ensures -1 <= r < |s|
    ensures r >= 0 ==> s[r] == c
    ensures forall i :: r < i < |s| ==> s[i] != c
    decreases |s|
  {
    if s == [] then -1
    else if s[|s| - 1] == c then |s| - 1
    else RFind(s[..|s| - 1], c)
  }

  /** `_truncate(text, max_len)`: long text is cut at its last space before the limit and
      marked with an ellipsis. */
  function Truncate(text: Option<string>, maxLen: nat): Option<string> {
    if !Truthy(text) || |text.value| <= maxLen then text
    else
      var t := text.value[..maxLen];
      var lastSpace := RFind(t, ' ');
      Some((if lastSpace > 0 then t[..lastSpace] else t) + "...")
  }

  /** What `_truncate` returns: the input itself when absent, empty or short enough; otherwise a
      prefix of at most `maxLen` characters plus "...", cut just before the last space of the
      first `maxLen` characters when that space is not at index 0, and at `maxLen` otherwise. */
  lemma TruncateSpec(text: Option<string>, maxLen: nat)
    ensures !Truthy(text) || |text.value| <= maxLen ==> Truncate(text, maxLen) == text
    ensures Truthy(text) && |text.value| > maxLen ==>
      exists n: nat :: TruncatedAt(text.value, maxLen, n)
        && Truncate(text, maxLen) == Some(text.value[..n] + "...")
  {
    if Truthy(text) && |text.value| > maxLen {
      var t := text.value[..maxLen];
      var lastSpace := RFind(t, ' ');
      var n := if lastSpace > 0 then lastSpace else maxLen;
      assert forall i :: 0 <= i < maxLen ==> t[i] == text.value[i];
      assert TruncatedAt(text.value, maxLen, n);
      assert t[..n] == text.value[..n];
    }
  }

  /** `n` is where `_truncate` cuts `s`: the last space among the first `maxLen` characters when
      it is past index 0, else `maxLen` itself. */
  predicate TruncatedAt(s: string, maxLen: nat, n: nat) {
    && maxLen < |s|
    && n <= maxLen
    && (n < maxLen ==> 0 < n && s[n] == ' ' && forall i :: n < i < maxLen ==> s[i] != ' ')
    && (n == maxLen ==> forall i :: 0 < i < maxLen ==> s[i] != ' ')
  }

  /** The truncated text never exceeds the limit by more than the three-character marker, and it
      starts with the original text's first characters. */
  lemma TruncateBounds(text: Option<string>, maxLen: nat)
    ensures var r := Truncate(text, maxLen);
      r.Some? <==> text.Some?
    ensures var r := Truncate(text, maxLen);
      r.Some? ==> |r.value| <= maxLen + 3
    ensures var r := Truncate(text, maxLen);
      r.Some? && r != text ==> IsPrefix(r.value[..|r.value| - 3], text.value)
  {
    TruncateSpec(text, maxLen);
  }

  // ---------------------------------------------------------------------------
  // Request, response
  // ---------------------------------------------------------------------------

  /** The query parameters; `page >= 1` and `1 <= perPage <= 100` are checked by the framework. */
  datatype Params = Params(q: string, topic: Option<string>, statute: Option<string>,
                           yearStart: Option<int>, yearEnd: Option<int>, page: int, perPage: int)

  predicate ValidParams(p: Params) {
    p.page >= 1 && 1 <= p.perPage <= 100
  }

  /** A value in `filters_applied`. */
  datatype FilterValue = Text(s: string) | Year(n: int)

  datatype SearchResult = SearchResult(
    opinionId: string,
    opinionNumber: string,
    date: Option<string>,
    year: int,
    question: Option<string>,
    conclusion: Option<string>,
    topics: seq<string>,
    statutes: seq<string>,
    rank: int,
    documentType: Option<string>)

  datatype SearchResponse = SearchResponse(
    query: string,
    totalResults: nat,
    page: int,
    perPage: int,
    results: seq<SearchResult>,
    filtersApplied: seq<(string, FilterValue)>)

  /** `filters_applied`: the supplied filters in the order topic, statute, year_start, year_end;
      a topic or statute counts as supplied when non-empty, a year bound when present. */
  function FiltersApplied(p: Params): (r: seq<(string, FilterValue)>)
    ensures forall k, v :: (k, v) in r <==>
      || (k == "topic" && Truthy(p.topic) && v == Text(p.topic.value))
      || (k == "statute" && Truthy(p.statute) && v == Text(p.statute.value))
      || (k == "year_start" && p.yearStart.Some? && v == Year(p.yearStart.value))
      || (k == "year_end" && p.yearEnd.Some? && v == Year(p.yearEnd.value))
    ensures forall i, j :: 0 <= i < j < |r| ==> r[i].0 != r[j].0
  {
    (if Truthy(p.topic) then [("topic", Text(p.topic.value))] else [])
    + (if Truthy(p.statute) then [("statute", Text(p.statute.value))] else [])
    + (if p.yearStart.Some? then [("year_start", Year(p.yearStart.value))] else [])
    + (if p.yearEnd.Some? then [("year_end", Year(p.yearEnd.value))] else [])
  }

  // ---------------------------------------------------------------------------
  // Filtering
  // ---------------------------------------------------------------------------

  /** The post-hoc filters, AND-combined, with inclusive year bounds. */
  predicate Passes(m: OpinionMeta, p: Params) {
    && (Truthy(p.topic) ==> m.topicPrimary == p.topic)
    && (Truthy(p.statute) ==> p.statute.value in m.governmentCodeSections)
    && (p.yearStart.Some? ==> m.year >= p.yearStart.value)
    && (p.yearEnd.Some? ==> m.year <= p.yearEnd.value)
  }

  /** The engine ids that have metadata and pass the filters, in engine order, with their
      metadata. */
  function Filtered(ids: seq<string>, opinions: map<string, OpinionMeta>, p: Params)
    : seq<(string, OpinionMeta)>
    decreases |ids|
  {
    if ids == [] then []
    else
      var id := ids[|ids| - 1];
      Filtered(ids[..|ids| - 1], opinions, p)
        + (if id in opinions && Passes(opinions[id], p) then [(id, opinions[id])] else [])
  }

  /** An entry is kept exactly when its id comes from the engine, has metadata, and the metadata
      passes every supplied filter. */
  lemma {:induction false} FilteredMembers(ids: seq<string>, opinions: map<string, OpinionMeta>,
                                           p: Params, id: string, m: OpinionMeta)
    ensures (id, m) in Filtered(ids, opinions, p) <==>
      id in ids && id in opinions && m == opinions[id] && Passes(m, p)
    decreases |ids|
  {
    if ids != [] {
      var init := ids[..|ids| - 1];
      FilteredMembers(init, opinions, p, id, m);
      assert ids == init + [ids[|ids| - 1]];
    }
  }

  /** Filtering keeps the engine's order: the filtered result of a concatenation is the
      concatenation of the filtered parts. */
  lemma {:induction false} FilteredAppend(xs: seq<string>, ys: seq<string>,
                                          opinions: map<string, OpinionMeta>, p: Params)
    ensures Filtered(xs + ys, opinions, p) == Filtered(xs, opinions, p) + Filtered(ys, opinions, p)
    decreases |ys|
  {
    if ys == [] {
      assert xs + ys == xs;
    } else {
      var init := ys[..|ys| - 1];
      assert (xs + ys)[..|xs + ys| - 1] == xs + init;
      FilteredAppend(xs, init, opinions, p);
    }
  }

  /** The filtered list is never longer than the engine's list. */
  lemma {:induction false} FilteredLength(ids: seq<string>, opinions: map<string, OpinionMeta>,
                                          p: Params)
    ensures |Filtered(ids, opinions, p)| <= |ids|
    decreases |ids|
  {
    if ids != [] {
      FilteredLength(ids[..|ids| - 1], opinions, p);
    }
  }

  // ---------------------------------------------------------------------------
  // Pagination and results
  // ---------------------------------------------------------------------------

  /** The index of the first item of `page`. */
  function PageStart(page: int, perPage: int): nat
    requires page >= 1 && perPage >= 1
  {
    var pagesBefore: nat := page - 1;
    var size: nat := perPage;
    pagesBefore * size
  }

  /** Python's `xs[start:start + perPage]` for `start >= 0`: bounds past the end are clamped. */
  function PageOf<T>(xs: seq<T>, start: nat, perPage: nat): (r: seq<T>)
    ensures |r| <= perPage
    ensures start + perPage <= |xs| ==> |r| == perPage
    ensures start >= |xs| ==> r == []
    ensures forall k :: 0 <= k < |r| ==> start + k < |xs| && r[k] == xs[start + k]
  {
    var lo := if start < |xs| then start else |xs|;
    var hi := if start + perPage < |xs| then start + perPage else |xs|;
    xs[lo..hi]
  }

  /** `[t for t in [primary, secondary] if t is not None]`. */
  function TopicsOf(primary: Option<string>, secondary: Option<string>): (r: seq<string>)
    ensures |r| <= 2
    ensures primary.Some? ==> |r| > 0 && r[0] == primary.value
    ensures secondary.Some? ==> |r| > 0 && r[|r| - 1] == secondary.value
    ensures |r| == (if primary.Some? then 1 else 0) + (if secondary.Some? then 1 else 0)
  {
    (if primary.Some? then [primary.value] else []) + (if secondary.Some? then [secondary.value] else [])
  }

  /** The result row for one filtered entry at a given rank. */
  function ResultOf(item: (string, OpinionMeta), rank: int): (r: SearchResult)
    ensures r.opinionId == item.0 && r.rank == rank
    ensures r.conclusion == Truncate(item.1.conclusion, MaxConclusion)
    ensures r.topics == TopicsOf(item.1.topicPrimary, item.1.topicSecondary)
  {
    var m := item.1;
    SearchResult(item.0, m.opinionNumber, m.date, m.year, m.question,
                 Truncate(m.conclusion, MaxConclusion),
                 TopicsOf(m.topicPrimary, m.topicSecondary),
                 m.governmentCodeSections, rank, m.documentType)
  }

  /** `_truncate` as `search` applies it, with the default limit. */
  lemma ResultConclusion(item: (string, OpinionMeta), rank: int)
    ensures var c := ResultOf(item, rank).conclusion;
      c.Some? ==> |c.value| <= MaxConclusion + 3
  {
    TruncateBounds(item.1.conclusion, MaxConclusion);
  }

  /** The result rows for the items of one page, ranked consecutively from `firstRank`. */
  function Results(items: seq<(string, OpinionMeta)>, firstRank: int): (r: seq<SearchResult>)
    ensures |r| == |items|
    ensures forall k :: 0 <= k < |r| ==> r[k] == ResultOf(items[k], firstRank + k)
    decreases |items|
  {
    if items == [] then []
    else
      var n := |items| - 1;
      Results(items[..n], firstRank) + [ResultOf(items[n], firstRank + n)]
  }

  /** A query that is only whitespace. */
  predicate Blank(q: string) {
    Strip(q, PyWhitespace) == []
  }

  /** The filtering loop of `search`: walks the engine ids in order, skips those without
      metadata and those failing a filter. */
  method FilterIds(resultIds: seq<string>, opinions: map<string, OpinionMeta>, p: Params)
    returns (filtered: seq<(string, OpinionMeta)>)
    ensures filtered == Filtered(resultIds, opinions, p)
  {
    filtered := [];
    for i := 0 to |resultIds|
      invariant filtered == Filtered(resultIds[..i], opinions, p)
    {
      var id := resultIds[i];
      assert resultIds[..i + 1][..i] == resultIds[..i];
      if id !in opinions {
        continue;
      }
      var meta := opinions[id];
      if Truthy(p.topic) && meta.topicPrimary != p.topic {
        continue;
      }
      if Truthy(p.statute) && p.statute.value !in meta.governmentCodeSections {
        continue;
      }
      if p.yearStart.Some? && meta.year < p.yearStart.value {
        continue;
      }
      if p.yearEnd.Some? && meta.year > p.yearEnd.value {
        continue;
      }
      filtered := filtered + [(id, meta)];
    }
    assert resultIds[..|resultIds|] == resultIds;
  }

  /** The results loop of `search`: one row per page item, ranked from `firstRank` on. */
  method RankPage(pageItems: seq<(string, OpinionMeta)>, firstRank: int)
    returns (results: seq<SearchResult>)
    ensures results == Results(pageItems, firstRank)
  {
    results := [];
    for k := 0 to |pageItems|
      invariant results == Results(pageItems[..k], firstRank)
    {
      assert pageItems[..k + 1][..k] == pageItems[..k];
      results := results + [ResultOf(pageItems[k], firstRank + k)];
    }
    assert pageItems[..|pageItems|] == pageItems;
  }

  /** The `search` handler. `resultIds` is what the engine returns for the stripped query
      (asked for its top 200); it is not consulted for a blank query. */
  method SearchOpinions(p: Params, opinions: map<string, OpinionMeta>, resultIds: seq<string>)
    returns (resp: SearchResponse)
    requires ValidParams(p)
    ensures resp.query == p.q && resp.page == p.page && resp.perPage == p.perPage
    ensures resp.filtersApplied == FiltersApplied(p)
    ensures Blank(p.q) ==> resp.totalResults == 0 && resp.results == []
    ensures !Blank(p.q) ==>
      var filtered := Filtered(resultIds, opinions, p);
      var start := PageStart(p.page, p.perPage);
      && resp.totalResults == |filtered|
      && resp.results == Results(PageOf(filtered, start, p.perPage), start + 1)
  {
    var filtersApplied := FiltersApplied(p);
    var query := Strip(p.q, PyWhitespace);
    if query == [] {
      return SearchResponse(p.q, 0, p.page, p.perPage, [], filtersApplied);
    }

    var filtered := FilterIds(resultIds, opinions, p);
    var total := |filtered|;

    var start := PageStart(p.page, p.perPage);
    var pageItems := PageOf(filtered, start, p.perPage);
    var results := RankPage(pageItems, start + 1);
    return SearchResponse(p.q, total, p.page, p.perPage, results, filtersApplied);
  }

  /** Every result of a non-blank search is an engine id with metadata that passes all supplied
      filters, and the ranks run consecutively from `(page - 1) * perPage + 1`; a page holds at
      most `perPage` results. */
  lemma SearchResultsSatisfyFilters(p: Params, opinions: map<string, OpinionMeta>,
                                    resultIds: seq<string>, k: nat)
    requires ValidParams(p)
    requires var filtered := Filtered(resultIds, opinions, p);
      k < |PageOf(filtered, PageStart(p.page, p.perPage), p.perPage)|
    ensures var filtered := Filtered(resultIds, opinions, p);
      var start := PageStart(p.page, p.perPage);
      var r := Results(PageOf(filtered, start, p.perPage), start + 1)[k];
      && r.opinionId in resultIds && r.opinionId in opinions
      && Passes(opinions[r.opinionId], p)
      && r.rank == start + 1 + k
      && start + k < |filtered| && filtered[start + k].0 == r.opinionId
  {
    var filtered := Filtered(resultIds, opinions, p);
    var start := PageStart(p.page, p.perPage);
    var item := PageOf(filtered, start, p.perPage)[k];
    assert item in filtered;
    FilteredMembers(resultIds, opinions, p, item.0, item.1);
  }

  /** The number of results on a page: `perPage` for every full page, what is left on the last
      one, none past the end. */
  lemma SearchPageSize(p: Params, opinions: map<string, OpinionMeta>, resultIds: seq<string>)
    requires ValidParams(p)
    ensures var n, start := |Filtered(resultIds, opinions, p)|, PageStart(p.page, p.perPage);
      |Results(PageOf(Filtered(resultIds, opinions, p), start, p.perPage), start + 1)|
        == if start >= n then 0 else if start + p.perPage <= n then p.perPage else n - start
  {
  }
}
