/** The results area: placeholders while loading, a message when nothing matched, nothing
    before the first search, and otherwise one card per result. */
module ResultsList {
  import opened Common
  import opened Search
  import opened ResultCard

  /** The number of placeholder cards shown while loading. */
  const SkeletonCount: int := 5

  /** What the results area shows. */
  datatype ListView =
    | Skeletons(count: nat)
    | NoResults(message: string, hint: string)
    | Nothing
    | Cards(cards: seq<CardView>, keys: seq<string>)

  const FiltersSuffix: string := " with the current filters"
  const FiltersHint: string := "Try broadening your search or removing some filters."
  const KeywordsHint: string :=
    "Try different keywords, a statute number (e.g. “Section 87100”), or a broader search term."

  /** `ResultsList`: loading wins over everything, then an empty result list, then no results
      at all, then one card per result. */
  function View(results: Option<seq<SearchResult>>, loading: bool, query: string, hasFilters: bool): (v: ListView)
    ensures loading ==> v == Skeletons(SkeletonCount)
    ensures !loading && results == Some([]) ==>
      var head := "No results found for “" + query + "”";
      && v.NoResults?
      && IsPrefix(head, v.message)
      && (hasFilters <==> |v.message| > |head|)
      && (hasFilters ==> v.message[|head|..] == FiltersSuffix && v.hint == FiltersHint)
      && (!hasFilters ==> v.message == head && v.hint == KeywordsHint)
    ensures !loading && results.None? ==> v == Nothing
    ensures !loading && results.Some? && results.value != [] ==>
      && v.Cards?
      && |v.cards| == |results.value| == |v.keys|
      && (forall k :: 0 <= k < |v.cards| ==> v.cards[k] == Card(results.value[k]))
      && (forall k :: 0 <= k < |v.keys| ==> v.keys[k] == results.value[k].opinionId)
  {
    if loading then Skeletons(SkeletonCount)
    else if results.Some? && results.value == [] then
      NoResults("No results found for “" + query + "”" + (if hasFilters then FiltersSuffix else ""),
                if hasFilters then FiltersHint else KeywordsHint)
    else if results.None? then Nothing
    else
      var rs := results.value;
      Cards(seq(|rs|, k requires 0 <= k < |rs| => Card(rs[k])),
            seq(|rs|, k requires 0 <= k < |rs| => rs[k].opinionId))
  }
}
