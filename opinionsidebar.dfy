/** The sidebar of the opinion page: the opinions cited and citing, and the page and word
    counts. */
module OpinionSidebar {
  import opened Common
  import opened Opinions

  /** One entry of a citation list: a link to an opinion in the corpus, or plain text. */
  datatype Entry = Link(href: string, text: string) | Plain(text: string)

  /** A citation list as shown: "None", or one entry per citation. */
  datatype CitationView = NoneListed | Entries(entries: seq<Entry>)

  /** `CitationList`: "None" for an empty list; otherwise each citation, in order, as a link to
      its opinion's page exactly when that opinion is in the corpus, showing its number either
      way. */
  function CitationList(items: seq<CitedOpinion>): (v: CitationView)
    ensures v.NoneListed? <==> items == []
    ensures v.Entries? ==> |v.entries| == |items|
    ensures v.Entries? ==> forall k :: 0 <= k < |items| ==>
      && v.entries[k].text == items[k].opinionNumber
      && (v.entries[k].Link? <==> items[k].existsInCorpus)
      && (v.entries[k].Link? ==> v.entries[k].href == "/opinion/" + items[k].opinionNumber)
  {
    if items == [] then NoneListed
    else
      Entries(seq(|items|, k requires 0 <= k < |items| =>
        if items[k].existsInCorpus then Link("/opinion/" + items[k].opinionNumber, items[k].opinionNumber)
        else Plain(items[k].opinionNumber)))
  }

  /** The two citation lists, shown together. */
  datatype CitationsBlock = CitationsBlock(cites: CitationView, citedBy: CitationView)

  /** The counts block: each count when known (zero included) and whether a divider separates
      it from the citations above. */
  datatype MetadataBlock = MetadataBlock(pages: Option<int>, words: Option<int>, divider: bool)

  datatype SidebarView = SidebarView(citations: Option<CitationsBlock>, metadata: Option<MetadataBlock>)

  /** `OpinionSidebar`: nothing at all when there are no citations either way and neither count
      is known. The citations block is shown when either list is non-empty, with both lists;
      the counts block when either count is known, showing each known count, zero included,
      with a divider exactly when the citations block is shown too. */
  function Sidebar(d: OpinionDetail): (v: Option<SidebarView>)
    ensures v.None? <==> d.priorOpinions == [] && d.citedBy == [] && d.pageCount.None? && d.wordCount.None?
    ensures v.Some? ==> v.value.citations.Some? || v.value.metadata.Some?
    ensures v.Some? ==> (v.value.citations.Some? <==> d.priorOpinions != [] || d.citedBy != [])
    ensures v.Some? && v.value.citations.Some? ==>
      v.value.citations.value == CitationsBlock(CitationList(d.priorOpinions), CitationList(d.citedBy))
    ensures v.Some? ==> (v.value.metadata.Some? <==> d.pageCount.Some? || d.wordCount.Some?)
    ensures v.Some? && v.value.metadata.Some? ==>
      && v.value.metadata.value.pages == d.pageCount
      && v.value.metadata.value.words == d.wordCount
      && (v.value.metadata.value.divider <==> v.value.citations.Some?)
  {
    var hasCitations := d.priorOpinions != [] || d.citedBy != [];
    var hasMetadata := d.pageCount.Some? || d.wordCount.Some?;
    if !hasCitations && !hasMetadata then None
    else
      Some(SidebarView(
        if hasCitations then Some(CitationsBlock(CitationList(d.priorOpinions), CitationList(d.citedBy))) else None,
        if hasMetadata then Some(MetadataBlock(d.pageCount, d.wordCount, hasCitations)) else None))
  }
}
