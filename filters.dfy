/** `GET /api/filters`: the topic and statute options, most frequent first, with display labels,
    and the corpus-wide year range and total. */
module Filters {
  import opened Common
  import opened Metadata

  datatype FilterOption = FilterOption(value: string, labelText: string, count: nat)

  datatype FiltersResponse = FiltersResponse(
    topics: seq<FilterOption>,
    statutes: seq<FilterOption>,
    yearMin: int,
    yearMax: int,
    totalOpinions: nat)

  // ---------------------------------------------------------------------------
  // Stable sort by count, descending
  // ---------------------------------------------------------------------------

  /** Counts never increase from left to right. */
  predicate Descending(xs: Counts) {
    forall i, j :: 0 <= i < j < |xs| ==> xs[i].1 >= xs[j].1
  }

  /** The entries with count `c`, in order. */
  function WithCount(xs: Counts, c: nat): Counts {
    if xs == [] then []
    else (if xs[0].1 == c then [xs[0]] else []) + WithCount(xs[1..], c)
  }

  /** Places `x` before the first entry whose count is not larger than its own. */
  function Insert(x: (string, nat), ys: Counts): (r: Counts)
    ensures |r| == |ys| + 1
    ensures multiset(r) == multiset(ys) + multiset{x}
  {
    if ys == [] then [x]
    else if ys[0].1 > x.1 then
      assert ys == [ys[0]] + ys[1..];
      [ys[0]] + Insert(x, ys[1..])
    else [x] + ys
  }

  /** `sorted(items, key=count, reverse=True)`: Python's sort is stable also when reversed. */
  function SortByCount(xs: Counts): (r: Counts)
    ensures |r| == |xs|
    ensures multiset(r) == multiset(xs)
  {
    if xs == [] then []
    else
      assert xs == [xs[0]] + xs[1..];
      Insert(xs[0], SortByCount(xs[1..]))
  }

  lemma {:induction false} InsertDescending(x: (string, nat), ys: Counts)
    requires Descending(ys)
    ensures Descending(Insert(x, ys))
  {
    if ys != [] && ys[0].1 > x.1 {
      InsertDescending(x, ys[1..]);
      var r := Insert(x, ys[1..]);
      forall k | 0 <= k < |r|
        ensures r[k].1 <= ys[0].1
      {
        assert r[k] in multiset(r);
        assert r[k] in multiset(ys[1..]) + multiset{x};
        if r[k] != x {
          assert r[k] in ys[1..];
        }
      }
    }
  }

  /** Inserting `x` adds it in front of the entries of its own count and changes no other
      count's entries. */
  lemma {:induction false} InsertWithCount(x: (string, nat), ys: Counts, c: nat)
    ensures WithCount(Insert(x, ys), c) == (if x.1 == c then [x] else []) + WithCount(ys, c)
  {
    if ys == [] {
      WithCountCons(x, [], c);
    } else if ys[0].1 > x.1 {
      InsertWithCount(x, ys[1..], c);
      WithCountCons(ys[0], Insert(x, ys[1..]), c);
    } else {
      WithCountCons(x, ys, c);
    }
  }

  lemma WithCountCons(a: (string, nat), zs: Counts, c: nat)
    ensures WithCount([a] + zs, c) == (if a.1 == c then [a] else []) + WithCount(zs, c)
  {
    assert ([a] + zs)[1..] == zs;
  }

  /** The options come out with counts non-increasing. */
  lemma {:induction false} SortDescending(xs: Counts)
    ensures Descending(SortByCount(xs))
  {
    if xs != [] {
      SortDescending(xs[1..]);
      InsertDescending(xs[0], SortByCount(xs[1..]));
    }
  }

  /** The sort is stable: the entries of any one count keep their original order. */
  lemma {:induction false} SortStable(xs: Counts, c: nat)
    ensures WithCount(SortByCount(xs), c) == WithCount(xs, c)
  {
    if xs != [] {
      SortStable(xs[1..], c);
      InsertWithCount(xs[0], SortByCount(xs[1..]), c);
    }
  }

  // ---------------------------------------------------------------------------
  // Labels
  // ---------------------------------------------------------------------------

  /** A letter starts a word of `str.title()` when no letter precedes it. */
  predicate WordStart(s: string, i: int)
    requires 0 <= i < |s|
  {
    i == 0 || !IsLetter(s[i - 1])
  }

  /** `str.title()` on ASCII text: the first letter of each run of letters is uppercased and the
      rest of the run lowercased; other characters are kept. */
  function Title(s: string): (r: string)
    ensures |r| == |s|
    ensures forall i :: 0 <= i < |s| ==>
      r[i] == if WordStart(s, i) then ToUpper(s[i]) else ToLower(s[i])
  {
    seq(|s|, i requires 0 <= i < |s| => if WordStart(s, i) then ToUpper(s[i]) else ToLower(s[i]))
  }

  /** The label of a topic option: `topic.replace("_", " ").title()`. */
  function TopicLabel(topic: string): string {
    Title(Underscores(topic))
  }

  /** Changing case keeps letters letters and non-letters unchanged, and repeating or following
      one case change by the other leaves the letter's lower-case form the same. */
  lemma CaseChange(c: char)
    ensures IsLetter(ToUpper(c)) == IsLetter(c) && IsLetter(ToLower(c)) == IsLetter(c)
    ensures ToUpper(ToUpper(c)) == ToUpper(c) && ToLower(ToLower(c)) == ToLower(c)
    ensures ToLower(ToUpper(c)) == ToLower(c)
    ensures IsLetter(c) ==> IsUpper(ToUpper(c)) && IsLower(ToLower(c))
  {
  }

  /** Title-casing keeps the letters (and so the word starts) in place. */
  lemma TitleLetters(s: string, i: int)
    requires 0 <= i < |s|
    ensures IsLetter(Title(s)[i]) == IsLetter(s[i])
    ensures WordStart(Title(s), i) == WordStart(s, i)
  {
    CaseChange(s[i]);
    if i > 0 {
      CaseChange(s[i - 1]);
    }
  }

  /** A topic label has the topic's length, no underscores, spaces where the underscores were,
      and otherwise the topic's characters up to letter case; the first letter of each word is
      upper case and every other letter lower case. */
  lemma TopicLabelShape(topic: string)
    ensures var l := TopicLabel(topic);
      && |l| == |topic|
      && (forall i :: 0 <= i < |l| ==> l[i] != '_')
      && (forall i :: 0 <= i < |l| ==> topic[i] == '_' ==> l[i] == ' ')
      && (forall i :: 0 <= i < |l| ==> ToLower(l[i]) == ToLower(topic[i]) || topic[i] == '_')
      && (forall i :: 0 <= i < |l| && IsLetter(l[i]) ==>
            (WordStart(l, i) <==> IsUpper(l[i])))
  {
    var u := Underscores(topic);
    var l := TopicLabel(topic);
    forall i | 0 <= i < |l|
      ensures l[i] != '_'
      ensures topic[i] == '_' ==> l[i] == ' '
      ensures ToLower(l[i]) == ToLower(topic[i]) || topic[i] == '_'
      ensures IsLetter(l[i]) ==> (WordStart(l, i) <==> IsUpper(l[i]))
    {
      TitleLetters(u, i);
      CaseChange(u[i]);
    }
  }

  /** Applying `title()` twice gives the same as once. */
  lemma TitleIdempotent(s: string)
    ensures Title(Title(s)) == Title(s)
  {
    var t := Title(s);
    forall i | 0 <= i < |s|
      ensures Title(t)[i] == t[i]
    {
      TitleLetters(s, i);
      CaseChange(s[i]);
    }
  }

  /** The label of a statute option. */
  function StatuteLabel(statute: string): (l: string)
    ensures |l| == |statute| + 8 && l[8..] == statute
    ensures IsPrefix("Section ", l)
  {
    "Section " + statute
  }

  // ---------------------------------------------------------------------------
  // The response
  // ---------------------------------------------------------------------------

  /** Options in the sorted order of the counter, labelled by `label`. */
  function Options(sorted: Counts, isTopic: bool): (r: seq<FilterOption>)
    ensures |r| == |sorted|
    ensures forall k :: 0 <= k < |r| ==>
      r[k] == FilterOption(sorted[k].0,
                           if isTopic then TopicLabel(sorted[k].0) else StatuteLabel(sorted[k].0),
                           sorted[k].1)
  {
    seq(|sorted|, k requires 0 <= k < |sorted| =>
      FilterOption(sorted[k].0,
                   if isTopic then TopicLabel(sorted[k].0) else StatuteLabel(sorted[k].0),
                   sorted[k].1))
  }

  /** `get_filters`. */
  function GetFilters(index: IndexValue): FiltersResponse {
    FiltersResponse(Options(SortByCount(index.topicCounts), true),
                    Options(SortByCount(index.statuteCounts), false),
                    index.yearMin, index.yearMax, index.totalOpinions)
  }

  /** The pairs of value and count carried by a list of options. */
  function Pairs(os: seq<FilterOption>): (r: Counts)
    ensures |r| == |os| && forall k :: 0 <= k < |os| ==> r[k] == (os[k].value, os[k].count)
  {
    seq(|os|, k requires 0 <= k < |os| => (os[k].value, os[k].count))
  }

  /** One option per counter entry with its count, most frequent first, ties in the counter's
      order; topic labels are the title-cased topics and statute labels "Section " plus the
      section; the year range and total are passed through. */
  lemma GetFiltersSpec(index: IndexValue, c: nat)
    ensures var r := GetFilters(index);
      && multiset(Pairs(r.topics)) == multiset(index.topicCounts)
      && multiset(Pairs(r.statutes)) == multiset(index.statuteCounts)
      && Descending(Pairs(r.topics)) && Descending(Pairs(r.statutes))
      && WithCount(Pairs(r.topics), c) == WithCount(index.topicCounts, c)
      && WithCount(Pairs(r.statutes), c) == WithCount(index.statuteCounts, c)
      && (forall o | o in r.topics :: o.labelText == TopicLabel(o.value))
      && (forall o | o in r.statutes :: o.labelText == StatuteLabel(o.value))
      && r.yearMin == index.yearMin && r.yearMax == index.yearMax
      && r.totalOpinions == index.totalOpinions
  {
    var r := GetFilters(index);
    assert Pairs(r.topics) == SortByCount(index.topicCounts);
    assert Pairs(r.statutes) == SortByCount(index.statuteCounts);
    SortDescending(index.topicCounts);
    SortDescending(index.statuteCounts);
    SortStable(index.topicCounts, c);
    SortStable(index.statuteCounts, c);
  }
}
