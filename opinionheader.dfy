/** The header of the opinion page: the topic chips (primary, secondary, then tags, without
    repeats), the statute chips, the "Requested by" line and the download link. */
module OpinionHeader {
  import opened Common
  import opened Opinions

  /** No entry occurs twice. */
  predicate Distinct(xs: seq<string>) {
    forall i, j :: 0 <= i < j < |xs| ==> xs[i] != xs[j]
  }

  /** The topics before the tags: the primary topic when present, then the secondary one when
      present and different from the primary. */
  function SeedTopics(primary: Option<string>, secondary: Option<string>): (r: seq<string>)
    ensures Distinct(r) && |r| <= 2
    ensures forall x :: x in r <==>
      (Truthy(primary) && x == primary.value) || (Truthy(secondary) && x == secondary.value)
    ensures Truthy(primary) ==> r != [] && r[0] == primary.value
  {
    (if Truthy(primary) then [primary.value] else [])
      + (if Truthy(secondary) && secondary != primary then [secondary.value] else [])
  }

  /** `acc` with each of `tags`, in order, appended unless already present. */
  function AddNew(acc: seq<string>, tags: seq<string>): seq<string>
    decreases |tags|
  {
    if tags == [] then acc
    else
      var a := AddNew(acc, tags[..|tags| - 1]);
      if tags[|tags| - 1] in a then a else a + [tags[|tags| - 1]]
  }

  /** A topic ends up in the list exactly when it was there before or is one of the tags. */
  lemma {:induction false} AddNewMembers(acc: seq<string>, tags: seq<string>, x: string)
    ensures x in AddNew(acc, tags) <==> x in acc || x in tags
    decreases |tags|
  {
    if tags != [] {
      var init := tags[..|tags| - 1];
      AddNewMembers(acc, init, x);
      assert tags == init + [tags[|tags| - 1]];
    }
  }

  /** Appending only absent tags keeps a list free of repeats. */
  lemma {:induction false} AddNewDistinct(acc: seq<string>, tags: seq<string>)
    requires Distinct(acc)
    ensures Distinct(AddNew(acc, tags))
    decreases |tags|
  {
    if tags != [] {
      AddNewDistinct(acc, tags[..|tags| - 1]);
    }
  }

  /** Tags are only appended: the list before them is kept as a prefix. */
  lemma {:induction false} AddNewPrefix(acc: seq<string>, tags: seq<string>)
    ensures |acc| <= |AddNew(acc, tags)| && AddNew(acc, tags)[..|acc|] == acc
    decreases |tags|
  {
    if tags != [] {
      AddNewPrefix(acc, tags[..|tags| - 1]);
    }
  }

  /** The topic chips of an opinion, in order. */
  function Topics(d: OpinionDetail): seq<string> {
    AddNew(SeedTopics(d.topicPrimary, d.topicSecondary), d.topicTags)
  }

  /** The topic chips never repeat a topic; they are exactly the present primary and secondary
      topics and the tags; and the primary topic, when present, comes first. */
  lemma TopicsSpec(d: OpinionDetail)
    ensures Distinct(Topics(d))
    ensures forall x :: x in Topics(d) <==>
      (Truthy(d.topicPrimary) && x == d.topicPrimary.value)
      || (Truthy(d.topicSecondary) && x == d.topicSecondary.value)
      || x in d.topicTags
    ensures Truthy(d.topicPrimary) ==> Topics(d) != [] && Topics(d)[0] == d.topicPrimary.value
  {
    var seed := SeedTopics(d.topicPrimary, d.topicSecondary);
    AddNewDistinct(seed, d.topicTags);
    AddNewPrefix(seed, d.topicTags);
    forall x
      ensures x in Topics(d) <==> x in seed || x in d.topicTags
    {
      AddNewMembers(seed, d.topicTags, x);
    }
  }

  /** The topic loop: starts from the primary and secondary topics and pushes each tag not yet
      listed. */
  method CombineTopics(d: OpinionDetail) returns (topics: seq<string>)
    ensures topics == Topics(d)
  {
    topics := [];
    if Truthy(d.topicPrimary) {
      topics := topics + [d.topicPrimary.value];
    }
    if Truthy(d.topicSecondary) && d.topicSecondary != d.topicPrimary {
      topics := topics + [d.topicSecondary.value];
    }
    ghost var seed := topics;
    assert seed == SeedTopics(d.topicPrimary, d.topicSecondary);
    for k := 0 to |d.topicTags|
      invariant topics == AddNew(seed, d.topicTags[..k])
    {
      assert d.topicTags[..k + 1][..k] == d.topicTags[..k];
      if d.topicTags[k] !in topics {
        topics := topics + [d.topicTags[k]];
      }
    }
    assert d.topicTags[..|d.topicTags|] == d.topicTags;
  }

  /** The statute chips: the Government Code sections, then the regulations. */
  function Statutes(d: OpinionDetail): (r: seq<string>)
    ensures |r| == |d.governmentCodeSections| + |d.regulations|
    ensures r[..|d.governmentCodeSections|] == d.governmentCodeSections
    ensures r[|d.governmentCodeSections|..] == d.regulations
  {
    d.governmentCodeSections + d.regulations
  }

  /** The present requestor parts, in the order name, title, city. */
  function RequestorParts(name: Option<string>, title: Option<string>, city: Option<string>): (r: seq<string>)
    ensures forall k :: 0 <= k < |r| ==> r[k] != ""
    ensures |r| == (if Truthy(name) then 1 else 0) + (if Truthy(title) then 1 else 0)
                   + (if Truthy(city) then 1 else 0)
  {
    (if Truthy(name) then [name.value] else [])
      + (if Truthy(title) then [title.value] else [])
      + (if Truthy(city) then [city.value] else [])
  }

  /** `requestorLine`: absent exactly when no part is present; otherwise it starts with the
      first present part, ends with the last one, and holds the present parts with ", " between
      neighbours. */
  function RequestorLine(d: OpinionDetail): (r: Option<string>)
    ensures r.None? <==> !Truthy(d.requestorName) && !Truthy(d.requestorTitle) && !Truthy(d.requestorCity)
    ensures r.Some? ==>
      var parts := RequestorParts(d.requestorName, d.requestorTitle, d.requestorCity);
      && IsPrefix(parts[0], r.value)
      && |parts[|parts| - 1]| <= |r.value|
      && r.value[|r.value| - |parts[|parts| - 1]|..] == parts[|parts| - 1]
      && |r.value| == TotalLength(parts) + 2 * (|parts| - 1)
    ensures Truthy(d.requestorName) && !Truthy(d.requestorTitle) && !Truthy(d.requestorCity) ==>
      r == d.requestorName
  {
    var parts := RequestorParts(d.requestorName, d.requestorTitle, d.requestorCity);
    if parts == [] then None
    else
      JoinEnds(parts, ", ");
      JoinLength(parts, ", ");
      Some(Join(parts, ", "))
  }

  /** What the header shows besides number, date and document type. */
  datatype HeaderView = HeaderView(
    topics: seq<string>,
    statutes: seq<string>,
    requestorLine: Option<string>,
    downloadUrl: Option<string>)

  /** The header of an opinion. The download link is there exactly when the PDF address is
      present and non-empty, and then points at it. */
  method Header(d: OpinionDetail) returns (h: HeaderView)
    ensures h.topics == Topics(d) && h.statutes == Statutes(d)
    ensures h.requestorLine == RequestorLine(d)
    ensures h.downloadUrl.Some? <==> Truthy(d.pdfUrl)
    ensures h.downloadUrl.Some? ==> h.downloadUrl == d.pdfUrl
  {
    var topics := CombineTopics(d);
    h := HeaderView(topics, Statutes(d), RequestorLine(d), if Truthy(d.pdfUrl) then d.pdfUrl else None);
  }
}
