/** The in-memory metadata index built at startup from the extracted opinion files. */
module Metadata {
  import opened Common

  /** The fields of an extracted opinion file that the backend reads. Each is `None` when its
      key is absent; the nested `sections`, `citations`, `classification`, `parsed` and
      `extraction` objects are flattened into one record. */
  datatype RawOpinion = RawOpinion(
    id: Option<string>,
    year: Option<int>,
    question: Option<string>,
    questionSynthetic: Option<string>,
    conclusion: Option<string>,
    conclusionSynthetic: Option<string>,
    facts: Option<string>,
    analysis: Option<string>,
    hasStandardFormat: Option<bool>,
    topicPrimary: Option<string>,
    topicSecondary: Option<string>,
    topicTags: Option<seq<string>>,
    governmentCode: Option<seq<string>>,
    regulations: Option<seq<string>>,
    priorOpinions: Option<seq<string>>,
    citedBy: Option<seq<string>>,
    date: Option<string>,
    requestorName: Option<string>,
    requestorTitle: Option<string>,
    requestorCity: Option<string>,
    documentType: Option<string>,
    pageCount: Option<int>,
    wordCount: Option<int>,
    localPdfPath: Option<string>,
    pdfUrl: Option<string>)

  /** One directory entry inside a year directory: its name, its path, and its parsed content,
      `None` when the file could not be read or decoded. */
  datatype FileEntry = FileEntry(filename: string, path: string, content: Option<RawOpinion>)

  /** One entry of the data directory, in sorted order: only directories are walked. */
  datatype YearDir = YearDir(isDir: bool, files: seq<FileEntry>)

  /** The summary kept per opinion for search and filtering. */
  datatype OpinionMeta = OpinionMeta(
    opinionNumber: string,
    date: Option<string>,
    year: int,
    question: Option<string>,
    conclusion: Option<string>,
    topicPrimary: Option<string>,
    topicSecondary: Option<string>,
    governmentCodeSections: seq<string>,
    regulations: seq<string>,
    priorOpinions: seq<string>,
    citedBy: seq<string>,
    documentType: Option<string>,
    filePath: string,
    localPdfPath: Option<string>)

  /** A `Counter` turned into a dict: keys in order of first increment, with their counts. */
  type Counts = seq<(string, nat)>

  /** The index as a value: what the routers read. */
  datatype IndexValue = IndexValue(
    opinions: map<string, OpinionMeta>,
    topicCounts: Counts,
    statuteCounts: Counts,
    yearMin: int,
    yearMax: int,
    totalOpinions: nat)

  // ---------------------------------------------------------------------------
  // One record
  // ---------------------------------------------------------------------------

  predicate EndsWith(s: string, suffix: string) {
    |suffix| <= |s| && s[|s| - |suffix|..] == suffix
  }

  /** `str.removesuffix`. */
  function RemoveSuffix(s: string, suffix: string): (r: string)
    ensures EndsWith(s, suffix) ==> r + suffix == s
    ensures !EndsWith(s, suffix) ==> r == s
  {
    if EndsWith(s, suffix) then s[..|s| - |suffix|] else s
  }

  /** The entries the walk loads: `.json` files that parsed. */
  predicate IsLoaded(e: FileEntry) {
    EndsWith(e.filename, ".json") && e.content.Some?
  }

  /** The opinion id: the file's `id`, else the file name without `.json`. */
  function OpinionId(e: FileEntry): string
    requires IsLoaded(e)
  {
    e.content.value.id.GetOr(RemoveSuffix(e.filename, ".json"))
  }

  function YearOf(e: FileEntry): int
    requires IsLoaded(e)
  {
    e.content.value.year.GetOr(0)
  }

  /** The summary of one loaded file, with the `_synthetic` fallbacks for question and conclusion. */
  function MetaOf(e: FileEntry): (m: OpinionMeta)
    requires IsLoaded(e)
    ensures m.opinionNumber == OpinionId(e) && m.year == YearOf(e) && m.filePath == e.path
    ensures var raw := e.content.value;
      && (Truthy(raw.question) ==> m.question == raw.question)
      && (!Truthy(raw.question) ==> m.question == raw.questionSynthetic)
      && (Truthy(raw.conclusion) ==> m.conclusion == raw.conclusion)
      && (!Truthy(raw.conclusion) ==> m.conclusion == raw.conclusionSynthetic)
    ensures m.governmentCodeSections == ListOrEmpty(e.content.value.governmentCode)
  {
    var raw := e.content.value;
    OpinionMeta(
      OpinionId(e), raw.date, YearOf(e),
      OrElse(raw.question, raw.questionSynthetic),
      OrElse(raw.conclusion, raw.conclusionSynthetic),
      raw.topicPrimary, raw.topicSecondary,
      ListOrEmpty(raw.governmentCode), ListOrEmpty(raw.regulations),
      ListOrEmpty(raw.priorOpinions), ListOrEmpty(raw.citedBy),
      raw.documentType, e.path, raw.localPdfPath)
  }

  // ---------------------------------------------------------------------------
  // Counters
  // ---------------------------------------------------------------------------

  /** The count of `k`, 0 when absent (as `Counter` reads it). */
  function CountOf(c: Counts, k: string): nat {
    if c == [] then 0 else if c[0].0 == k then c[0].1 else CountOf(c[1..], k)
  }

  function Keys(c: Counts): set<string> {
    set p | p in c :: p.0
  }

  predicate DistinctKeys(c: Counts) {
    forall i, j :: 0 <= i < j < |c| ==> c[i].0 != c[j].0
  }

  /** `counter[k] += 1`: an existing key keeps its place, a new one is appended with 1. */
  function Bump(c: Counts, k: string): (r: Counts)
    ensures |r| == |c| || r == c + [(k, 1)]
    ensures forall i :: 0 <= i < |c| ==> r[i].0 == c[i].0
  {
    if c == [] then [(k, 1)]
    else if c[0].0 == k then [(k, c[0].1 + 1)] + c[1..]
    else [c[0]] + Bump(c[1..], k)
  }

  lemma KeysCons(p: (string, nat), c: Counts)
    ensures Keys([p] + c) == {p.0} + Keys(c)
  {
    assert forall q :: q in [p] + c <==> q == p || q in c;
  }

  /** Bumping adds the key to the key set. */
  lemma {:induction false} BumpKeys(c: Counts, k: string)
    ensures Keys(Bump(c, k)) == Keys(c) + {k}
  {
    if c == [] {
      KeysCons((k, 1), []);
    } else {
      assert c == [c[0]] + c[1..];
      KeysCons(c[0], c[1..]);
      if c[0].0 == k {
        KeysCons((k, c[0].1 + 1), c[1..]);
      } else {
        BumpKeys(c[1..], k);
        KeysCons(c[0], Bump(c[1..], k));
      }
    }
  }

  /** Bumping keeps the keys distinct. */
  lemma {:induction false} BumpDistinct(c: Counts, k: string)
    requires DistinctKeys(c)
    ensures DistinctKeys(Bump(c, k))
  {
    var r := Bump(c, k);
    if |r| != |c| {
      assert r == c + [(k, 1)];
      if exists i :: 0 <= i < |c| && c[i].0 == k {
        var i :| 0 <= i < |c| && c[i].0 == k;
        BumpFound(c, k, i);
      }
    }
  }

  /** Bumping a key already present does not append. */
  lemma {:induction false} BumpFound(c: Counts, k: string, i: nat)
    requires i < |c| && c[i].0 == k
    ensures |Bump(c, k)| == |c|
  {
    if c[0].0 != k {
      BumpFound(c[1..], k, i - 1);
    }
  }

  /** Bumping adds one to the bumped key's count and leaves the others. */
  lemma {:induction false} BumpCountOf(c: Counts, k: string, x: string)
    ensures CountOf(Bump(c, k), x) == CountOf(c, x) + (if x == k then 1 else 0)
  {
    if c != [] && c[0].0 != k {
      BumpCountOf(c[1..], k, x);
    }
  }

  lemma BumpCount(c: Counts, k: string)
    requires DistinctKeys(c)
    ensures DistinctKeys(Bump(c, k))
    ensures Keys(Bump(c, k)) == Keys(c) + {k}
    ensures forall x :: CountOf(Bump(c, k), x) == CountOf(c, x) + (if x == k then 1 else 0)
  {
    BumpDistinct(c, k);
    BumpKeys(c, k);
    forall x ensures CountOf(Bump(c, k), x) == CountOf(c, x) + (if x == k then 1 else 0) {
      BumpCountOf(c, k, x);
    }
  }

  /** `for section in gov_code: counter[section] += 1`. */
  function BumpAll(c: Counts, ks: seq<string>): Counts
    decreases |ks|
  {
    if ks == [] then c else BumpAll(Bump(c, ks[0]), ks[1..])
  }

  /** How many times `x` occurs in `ks`. */
  function Occurrences(ks: seq<string>, x: string): nat {
    if ks == [] then 0 else (if ks[0] == x then 1 else 0) + Occurrences(ks[1..], x)
  }

  lemma {:induction false} BumpAllDistinct(c: Counts, ks: seq<string>)
    requires DistinctKeys(c)
    ensures DistinctKeys(BumpAll(c, ks))
    decreases |ks|
  {
    if ks != [] {
      BumpDistinct(c, ks[0]);
      BumpAllDistinct(Bump(c, ks[0]), ks[1..]);
    }
  }

  lemma {:induction false} BumpAllKeys(c: Counts, ks: seq<string>)
    ensures Keys(BumpAll(c, ks)) == Keys(c) + set x | x in ks
    decreases |ks|
  {
    if ks != [] {
      var c1 := Bump(c, ks[0]);
      assert Keys(c1) == Keys(c) + {ks[0]} by {
        BumpKeys(c, ks[0]);
      }
      assert Keys(BumpAll(c1, ks[1..])) == Keys(c1) + set x | x in ks[1..] by {
        BumpAllKeys(c1, ks[1..]);
      }
      ElementsCons(ks);
    }
  }

  /** The elements of a non-empty list: its head and the elements of its tail. */
  lemma ElementsCons(ks: seq<string>)
    requires ks != []
    ensures (set x | x in ks) == {ks[0]} + set x | x in ks[1..]
  {
    forall x
      ensures x in ks <==> x == ks[0] || x in ks[1..]
    {
      assert ks == [ks[0]] + ks[1..];
    }
  }

  lemma {:induction false} BumpAllCountOf(c: Counts, ks: seq<string>, x: string)
    ensures CountOf(BumpAll(c, ks), x) == CountOf(c, x) + Occurrences(ks, x)
    decreases |ks|
  {
    if ks != [] {
      BumpCountOf(c, ks[0], x);
      BumpAllCountOf(Bump(c, ks[0]), ks[1..], x);
    }
  }

  /** Counting a list of keys keeps the keys distinct, adds the listed keys, and adds to each
      key's count the number of times it is listed. */
  lemma BumpAllCount(c: Counts, ks: seq<string>)
    requires DistinctKeys(c)
    ensures DistinctKeys(BumpAll(c, ks))
    ensures Keys(BumpAll(c, ks)) == Keys(c) + set x | x in ks
    ensures forall x :: CountOf(BumpAll(c, ks), x) == CountOf(c, x) + Occurrences(ks, x)
  {
    BumpAllDistinct(c, ks);
    BumpAllKeys(c, ks);
    forall x
      ensures CountOf(BumpAll(c, ks), x) == CountOf(c, x) + Occurrences(ks, x)
    {
      BumpAllCountOf(c, ks, x);
    }
  }

  // ---------------------------------------------------------------------------
  // The aggregation as a fold over the walked entries
  // ---------------------------------------------------------------------------

  /** What the walk has built so far: the id map, the two counters and the year bounds. */
  datatype Agg = Agg(opinions: map<string, OpinionMeta>, topics: Counts, statutes: Counts,
                     yearMin: int, yearMax: int)

  const Initial: Agg := Agg(map[], [], [], 9999, 0)

  /** Processing one entry of a year directory. */
  function Step(a: Agg, e: FileEntry): Agg {
    if !IsLoaded(e) then a
    else
      var raw := e.content.value;
      var year := YearOf(e);
      Agg(a.opinions[OpinionId(e) := MetaOf(e)],
          if Truthy(raw.topicPrimary) then Bump(a.topics, raw.topicPrimary.value) else a.topics,
          BumpAll(a.statutes, ListOrEmpty(raw.governmentCode)),
          if year != 0 && year < a.yearMin then year else a.yearMin,
          if year != 0 && year > a.yearMax then year else a.yearMax)
  }

  /** Processing a sequence of entries in order. */
  function Fold(a: Agg, es: seq<FileEntry>): Agg
    decreases |es|
  {
    if es == [] then a else Step(Fold(a, es[..|es| - 1]), es[|es| - 1])
  }

  /** The files visited: those of each year entry that is a directory, in order. */
  function Walk(dirs: seq<YearDir>): seq<FileEntry>
    decreases |dirs|
  {
    if dirs == [] then []
    else Walk(dirs[..|dirs| - 1]) + (if dirs[|dirs| - 1].isDir then dirs[|dirs| - 1].files else [])
  }

  /** The finished index: totals, and the year bounds reset to 0 when nothing was loaded. */
  function Finish(a: Agg): (v: IndexValue)
    ensures v.totalOpinions == |a.opinions.Keys|
    ensures v.totalOpinions == 0 ==> v.yearMin == 0 && v.yearMax == 0
    ensures v.totalOpinions > 0 ==> v.yearMin == a.yearMin && v.yearMax == a.yearMax
  {
    var total := |a.opinions.Keys|;
    IndexValue(a.opinions, a.topics, a.statutes,
               if total == 0 then 0 else a.yearMin, if total == 0 then 0 else a.yearMax, total)
  }

  /** What `build_metadata_index` returns for a data directory, present or not. */
  function Built(dataDirExists: bool, dirs: seq<YearDir>): IndexValue {
    if !dataDirExists then IndexValue(map[], [], [], 9999, 0, 0)
    else Finish(Fold(Initial, Walk(dirs)))
  }

  lemma FoldSnoc(a: Agg, es: seq<FileEntry>, e: FileEntry)
    ensures Fold(a, es + [e]) == Step(Fold(a, es), e)
  {
    assert (es + [e])[..|es|] == es;
  }

  lemma {:induction false} FoldAppend(a: Agg, xs: seq<FileEntry>, ys: seq<FileEntry>)
    ensures Fold(a, xs + ys) == Fold(Fold(a, xs), ys)
    decreases |ys|
  {
    if ys == [] {
      assert xs + ys == xs;
    } else {
      var ys', y := ys[..|ys| - 1], ys[|ys| - 1];
      assert xs + ys == (xs + ys') + [y];
      assert ys == ys' + [y];
      FoldSnoc(a, xs + ys', y);
      FoldAppend(a, xs, ys');
      FoldSnoc(Fold(a, xs), ys', y);
    }
  }

  lemma WalkSnoc(dirs: seq<YearDir>, i: nat)
    requires i < |dirs|
    ensures Walk(dirs[..i + 1]) == Walk(dirs[..i]) + (if dirs[i].isDir then dirs[i].files else [])
  {
    assert dirs[..i + 1][..i] == dirs[..i];
  }

  // ---------------------------------------------------------------------------
  // What the fold computes, stated independently of it
  // ---------------------------------------------------------------------------

  /** The ids of the loaded entries. */
  function LoadedIds(es: seq<FileEntry>): set<string>
    decreases |es|
  {
    if es == [] then {}
    else
      var last := es[|es| - 1];
      LoadedIds(es[..|es| - 1]) + (if IsLoaded(last) then {OpinionId(last)} else {})
  }

  /** Entry `i` is loaded and has id `id`. */
  predicate LoadedAt(es: seq<FileEntry>, i: int, id: string) {
    0 <= i < |es| && IsLoaded(es[i]) && OpinionId(es[i]) == id
  }

  /** The number of loaded entries whose primary topic is the non-empty `t`. */
  function TopicTally(es: seq<FileEntry>, t: string): nat
    decreases |es|
  {
    if es == [] then 0
    else
      var last := es[|es| - 1];
      TopicTally(es[..|es| - 1], t)
        + (if IsLoaded(last) && Truthy(last.content.value.topicPrimary)
              && last.content.value.topicPrimary.value == t then 1 else 0)
  }

  /** The number of times `x` is listed among the cited sections of the loaded entries. */
  function StatuteTally(es: seq<FileEntry>, x: string): nat
    decreases |es|
  {
    if es == [] then 0
    else
      var last := es[|es| - 1];
      StatuteTally(es[..|es| - 1], x)
        + (if IsLoaded(last) then Occurrences(ListOrEmpty(last.content.value.governmentCode), x) else 0)
  }

  /** Entry `i` is loaded with the non-zero year `y`. */
  predicate YearAt(es: seq<FileEntry>, i: int, y: int) {
    0 <= i < |es| && IsLoaded(es[i]) && YearOf(es[i]) == y && y != 0
  }

  /** The loaded entries, in order. */
  function LoadedOnly(es: seq<FileEntry>): (r: seq<FileEntry>)
    ensures forall e | e in r :: IsLoaded(e) && e in es
    decreases |es|
  {
    if es == [] then []
    else
      var last := es[|es| - 1];
      LoadedOnly(es[..|es| - 1]) + (if IsLoaded(last) then [last] else [])
  }

  /** A loaded entry with a given id exists exactly when the id is among `LoadedIds`. */
  lemma {:induction false} LoadedIdsAt(es: seq<FileEntry>, id: string)
    ensures id in LoadedIds(es) <==> exists i :: LoadedAt(es, i, id)
    decreases |es|
  {
    if es != [] {
      var init := es[..|es| - 1];
      LoadedIdsAt(init, id);
      if exists i :: LoadedAt(init, i, id) {
        var i :| LoadedAt(init, i, id);
        assert LoadedAt(es, i, id);
      }
      var last := es[|es| - 1];
      if IsLoaded(last) && OpinionId(last) == id {
        assert LoadedAt(es, |es| - 1, id);
      }
      if exists i :: LoadedAt(es, i, id) {
        var i :| LoadedAt(es, i, id);
        if i < |es| - 1 {
          assert LoadedAt(init, i, id);
        }
      }
    }
  }

  /** The id map holds the earlier ids and the ids of the loaded entries, and nothing else. */
  lemma {:induction false} FoldIds(a: Agg, es: seq<FileEntry>)
    ensures Fold(a, es).opinions.Keys == a.opinions.Keys + LoadedIds(es)
    decreases |es|
  {
    if es != [] {
      FoldIds(a, es[..|es| - 1]);
    }
  }

  /** A later file with the same id replaces an earlier one: the entry kept for an id is the
      last loaded file that has it. */
  lemma {:induction false} FoldLastWins(a: Agg, es: seq<FileEntry>, i: nat)
    requires i < |es| && IsLoaded(es[i])
    requires forall j | i < j < |es| :: !LoadedAt(es, j, OpinionId(es[i]))
    ensures OpinionId(es[i]) in Fold(a, es).opinions
    ensures Fold(a, es).opinions[OpinionId(es[i])] == MetaOf(es[i])
    decreases |es|
  {
    if i < |es| - 1 {
      var init := es[..|es| - 1];
      assert init[i] == es[i];
      forall j | i < j < |init|
        ensures !LoadedAt(init, j, OpinionId(init[i]))
      {
        assert !LoadedAt(es, j, OpinionId(es[i]));
      }
      FoldLastWins(a, init, i);
      assert !LoadedAt(es, |es| - 1, OpinionId(es[i]));
    }
  }

  /** Each topic is counted once per loaded file that has it as its non-empty primary topic; the
      counter's keys stay distinct. */
  lemma {:induction false} FoldTopics(a: Agg, es: seq<FileEntry>)
    requires DistinctKeys(a.topics)
    ensures DistinctKeys(Fold(a, es).topics)
    ensures forall t :: CountOf(Fold(a, es).topics, t) == CountOf(a.topics, t) + TopicTally(es, t)
    decreases |es|
  {
    if es != [] {
      var init, last := es[..|es| - 1], es[|es| - 1];
      FoldTopics(a, init);
      if IsLoaded(last) && Truthy(last.content.value.topicPrimary) {
        BumpCount(Fold(a, init).topics, last.content.value.topicPrimary.value);
      }
    }
  }

  /** Each section is counted once per listing among the loaded files' cited sections. */
  lemma {:induction false} FoldStatutes(a: Agg, es: seq<FileEntry>)
    requires DistinctKeys(a.statutes)
    ensures DistinctKeys(Fold(a, es).statutes)
    ensures forall x :: CountOf(Fold(a, es).statutes, x) == CountOf(a.statutes, x) + StatuteTally(es, x)
    decreases |es|
  {
    if es != [] {
      var init, last := es[..|es| - 1], es[|es| - 1];
      FoldStatutes(a, init);
      if IsLoaded(last) {
        BumpAllCount(Fold(a, init).statutes, ListOrEmpty(last.content.value.governmentCode));
      }
    }
  }

  /** The year bounds: the minimum is at most every non-zero year seen and the maximum at least
      every one, and each is its starting value or a year that was seen. */
  lemma {:induction false} FoldYears(a: Agg, es: seq<FileEntry>)
    ensures var r := Fold(a, es);
      && r.yearMin <= a.yearMin && r.yearMax >= a.yearMax
      && (forall i, y | YearAt(es, i, y) :: r.yearMin <= y <= r.yearMax)
      && (r.yearMin == a.yearMin || exists i :: YearAt(es, i, r.yearMin))
      && (r.yearMax == a.yearMax || exists i :: YearAt(es, i, r.yearMax))
    decreases |es|
  {
    if es != [] {
      var init := es[..|es| - 1];
      FoldYears(a, init);
      var p, r := Fold(a, init), Fold(a, es);
      forall i, y | YearAt(es, i, y)
        ensures r.yearMin <= y <= r.yearMax
      {
        if i < |es| - 1 {
          assert YearAt(init, i, y);
        }
      }
      if r.yearMin != a.yearMin {
        if r.yearMin == p.yearMin {
          var i :| YearAt(init, i, p.yearMin);
          assert YearAt(es, i, r.yearMin);
        } else {
          assert YearAt(es, |es| - 1, r.yearMin);
        }
      }
      if r.yearMax != a.yearMax {
        if r.yearMax == p.yearMax {
          var i :| YearAt(init, i, p.yearMax);
          assert YearAt(es, i, r.yearMax);
        } else {
          assert YearAt(es, |es| - 1, r.yearMax);
        }
      }
    }
  }

  /** Files that are not `.json` or could not be parsed change nothing: folding only the loaded
      files gives the same index. */
  lemma {:induction false} FoldSkipsUnloaded(a: Agg, es: seq<FileEntry>)
    ensures Fold(a, LoadedOnly(es)) == Fold(a, es)
    decreases |es|
  {
    if es != [] {
      var init, last := es[..|es| - 1], es[|es| - 1];
      FoldSkipsUnloaded(a, init);
      assert Fold(a, es) == Step(Fold(a, init), last);
      if IsLoaded(last) {
        assert LoadedOnly(es) == LoadedOnly(init) + [last];
        FoldSnoc(a, LoadedOnly(init), last);
      } else {
        assert LoadedOnly(es) == LoadedOnly(init);
      }
    }
  }

  /** The finished index for a present data directory: the ids, counts and totals of the walked
      files, and the year bounds over their non-zero years, or 0 and 0 when nothing loaded. */
  lemma BuiltIndex(dirs: seq<YearDir>)
    ensures var v, es := Built(true, dirs), Walk(dirs);
      && v.opinions.Keys == LoadedIds(es)
      && v.totalOpinions == |LoadedIds(es)|
      && DistinctKeys(v.topicCounts) && DistinctKeys(v.statuteCounts)
      && (forall t :: CountOf(v.topicCounts, t) == TopicTally(es, t))
      && (forall x :: CountOf(v.statuteCounts, x) == StatuteTally(es, x))
      && (v.totalOpinions == 0 ==> v.yearMin == 0 && v.yearMax == 0)
      && (v.totalOpinions > 0 ==> forall i, y | YearAt(es, i, y) :: v.yearMin <= y <= v.yearMax)
      && (v.totalOpinions > 0 ==> v.yearMin == 9999 || exists i :: YearAt(es, i, v.yearMin))
      && (v.totalOpinions > 0 ==> v.yearMax == 0 || exists i :: YearAt(es, i, v.yearMax))
  {
    var es := Walk(dirs);
    FoldIds(Initial, es);
    FoldTopics(Initial, es);
    FoldStatutes(Initial, es);
    FoldYears(Initial, es);
  }

  /** Without a data directory the index keeps the defaults, including the 9999/0 year bounds. */
  lemma BuiltWithoutDataDir(dirs: seq<YearDir>)
    ensures Built(false, dirs).totalOpinions == 0 && Built(false, dirs).opinions == map[]
    ensures Built(false, dirs).yearMin == 9999 && Built(false, dirs).yearMax == 0
  {
  }

  // ---------------------------------------------------------------------------
  // The index object and the walk
  // ---------------------------------------------------------------------------

  class MetadataIndex {
    var opinions: map<string, OpinionMeta>
    var topicCounts: Counts
    var statuteCounts: Counts
    var yearMin: int
    var yearMax: int
    var totalOpinions: nat

    /** The dataclass defaults. */
    constructor ()
      ensures opinions == map[] && topicCounts == [] && statuteCounts == []
      ensures yearMin == 9999 && yearMax == 0 && totalOpinions == 0
    {
      opinions, topicCounts, statuteCounts := map[], [], [];
      yearMin, yearMax, totalOpinions := 9999, 0, 0;
    }

    function Value(): IndexValue
      reads this
    {
      IndexValue(opinions, topicCounts, statuteCounts, yearMin, yearMax, totalOpinions)
    }
  }

  /** The body of the walk's inner loop for one directory entry: a loaded file is put into the
      id map and counted; anything else leaves the index and the counters as they were. */
  method Ingest(index: MetadataIndex, topicCounter: Counts, statuteCounter: Counts, e: FileEntry)
    returns (topics: Counts, statutes: Counts)
    modifies index
    ensures Agg(index.opinions, topics, statutes, index.yearMin, index.yearMax)
      == Step(Agg(old(index.opinions), topicCounter, statuteCounter,
                  old(index.yearMin), old(index.yearMax)), e)
    ensures index.totalOpinions == old(index.totalOpinions)
  {
    topics, statutes := topicCounter, statuteCounter;
    if !EndsWith(e.filename, ".json") || e.content.None? {
      return;
    }
    var raw := e.content.value;
    var opinionId := raw.id.GetOr(RemoveSuffix(e.filename, ".json"));
    var year := raw.year.GetOr(0);
    index.opinions := index.opinions[opinionId := MetaOf(e)];
    if Truthy(raw.topicPrimary) {
      topics := Bump(topics, raw.topicPrimary.value);
    }
    var sections := ListOrEmpty(raw.governmentCode);
    for k := 0 to |sections|
      invariant BumpAll(statutes, sections[k..]) == BumpAll(statuteCounter, sections)
    {
      assert sections[k..][1..] == sections[k + 1..];
      statutes := Bump(statutes, sections[k]);
    }
    assert sections[|sections|..] == [];
    if year != 0 {
      if year < index.yearMin {
        index.yearMin := year;
      }
      if year > index.yearMax {
        index.yearMax := year;
      }
    }
  }

  /** The walk's inner loop over the files of one year directory. */
  method IngestAll(index: MetadataIndex, topicCounter: Counts, statuteCounter: Counts,
                   files: seq<FileEntry>)
    returns (topics: Counts, statutes: Counts)
    modifies index
    ensures Agg(index.opinions, topics, statutes, index.yearMin, index.yearMax)
      == Fold(Agg(old(index.opinions), topicCounter, statuteCounter,
                  old(index.yearMin), old(index.yearMax)), files)
    ensures index.totalOpinions == old(index.totalOpinions)
  {
    ghost var start := Agg(index.opinions, topicCounter, statuteCounter, index.yearMin, index.yearMax);
    topics, statutes := topicCounter, statuteCounter;
    for j := 0 to |files|
      invariant Fold(start, files[..j])
        == Agg(index.opinions, topics, statutes, index.yearMin, index.yearMax)
      invariant index.totalOpinions == old(index.totalOpinions)
    {
      FoldSnoc(start, files[..j], files[j]);
      assert files[..j + 1] == files[..j] + [files[j]];
      topics, statutes := Ingest(index, topics, statutes, files[j]);
    }
    assert files[..|files|] == files;
  }

  /** `build_metadata_index`: walks the year directories in order and folds every loaded file
      into the index; a missing data directory leaves the defaults. */
  method BuildMetadataIndex(dataDirExists: bool, dirs: seq<YearDir>) returns (index: MetadataIndex)
    ensures fresh(index)
    ensures index.Value() == Built(dataDirExists, dirs)
  {
    index := new MetadataIndex();
    var topicCounter: Counts := [];
    var statuteCounter: Counts := [];
    if !dataDirExists {
      return;
    }
    for i := 0 to |dirs|
      invariant Fold(Initial, Walk(dirs[..i]))
        == Agg(index.opinions, topicCounter, statuteCounter, index.yearMin, index.yearMax)
      invariant index.totalOpinions == 0
    {
      WalkSnoc(dirs, i);
      if dirs[i].isDir {
        FoldAppend(Initial, Walk(dirs[..i]), dirs[i].files);
        topicCounter, statuteCounter := IngestAll(index, topicCounter, statuteCounter, dirs[i].files);
      } else {
        assert Walk(dirs[..i]) + [] == Walk(dirs[..i]);
      }
    }
    assert dirs[..|dirs|] == dirs;
    index.topicCounts := topicCounter;
    index.statuteCounts := statuteCounter;
    index.totalOpinions := |index.opinions.Keys|;
    if index.totalOpinions == 0 {
      index.yearMin := 0;
      index.yearMax := 0;
    }
  }
}
