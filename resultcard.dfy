/** A search result card: which text is the headline, which statutes show and how many are
    summarised as "+N more", and where the card links to. */
module ResultCard {
  import opened Common
  import opened Search

  /** At most this many statutes are shown on a card. */
  const MaxStatutes: int := 3

  /** What a card shows besides number, date and topics. */
  datatype CardView = CardView(
    link: string,
    primaryText: Option<string>,
    secondaryText: Option<string>,
    visibleStatutes: seq<string>,
    extraStatutes: Option<nat>)

  /** The card of one result. The headline is the question when there is one and otherwise the
      conclusion; the conclusion appears below only when the question is the headline. The
      first three statutes are shown in order and the rest are counted as "+N more", so that
      every statute is either shown or counted. The card links to the opinion's page. */
  function Card(r: SearchResult): (c: CardView)
    ensures c.link == "/opinion/" + r.opinionId
    ensures Truthy(r.question) ==> c.primaryText == r.question
    ensures !Truthy(r.question) ==> c.primaryText == (if Truthy(r.conclusion) then r.conclusion else None)
    ensures Truthy(c.primaryText) <==> Truthy(r.question) || Truthy(r.conclusion)
    ensures c.secondaryText.Some? ==> Truthy(r.question) && c.secondaryText == r.conclusion
    ensures Truthy(r.question) && Truthy(r.conclusion) ==> c.secondaryText == r.conclusion
    ensures c.primaryText.Some? ==> Truthy(c.primaryText)
    ensures c.secondaryText.Some? ==> Truthy(c.secondaryText)
    ensures |c.visibleStatutes| == (if |r.statutes| <= MaxStatutes then |r.statutes| else MaxStatutes)
    ensures c.visibleStatutes == r.statutes[..|c.visibleStatutes|]
    ensures c.extraStatutes.Some? <==> |r.statutes| > MaxStatutes
    ensures |c.visibleStatutes| + c.extraStatutes.GetOr(0) == |r.statutes|
  {
    var primary := OrElse(r.question, r.conclusion);
    var secondary := if Truthy(r.question) then r.conclusion else None;
    var visible := if |r.statutes| <= MaxStatutes then r.statutes else r.statutes[..MaxStatutes];
    CardView("/opinion/" + r.opinionId,
             if Truthy(primary) then primary else None,
             if Truthy(secondary) then secondary else None,
             visible,
             if |r.statutes| > MaxStatutes then Some(|r.statutes| - MaxStatutes) else None)
  }
}
