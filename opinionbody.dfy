/** The body of the opinion page: the Question, Facts, Analysis and Conclusion sections, each
    split into paragraphs, and the caveat for opinions extracted from a non-standard format. */
module OpinionBody {
  import opened Common
  import opened Opinions

  // ---------------------------------------------------------------------------
  // Paragraphs
  // ---------------------------------------------------------------------------

  /** Two newlines in a row start at index `i`. */
  predicate BreakAt(s: string, i: int) {
    0 <= i && i + 1 < |s| && s[i] == '\n' && s[i + 1] == '\n'
  }

  /** `s` never has two newlines in a row. */
  predicate NoBreak(s: string) {
    forall i :: 0 <= i < |s| ==> !BreakAt(s, i)
  }

  /** The first index from `from` on where two newlines in a row start, or -1. */
  function FirstBreak(s: string, from: nat): (r: int)
    ensures r == -1 || (from <= r && BreakAt(s, r))
    ensures forall k :: from <= k < (if r == -1 then |s| else r) ==> !BreakAt(s, k)
    decreases |s| - from
  {
    if from + 1 >= |s| then -1
    else if BreakAt(s, from) then from
    else FirstBreak(s, from + 1)
  }

  /** The end of the run of newlines that starts at `i`. */
  function RunEnd(s: string, i: nat): (r: nat)
    requires i <= |s|
    ensures i <= r <= |s|
    ensures forall k :: i <= k < r ==> s[k] == '\n'
    ensures r == |s| || s[r] != '\n'
    decreases |s| - i
  {
    if i < |s| && s[i] == '\n' then RunEnd(s, i + 1) else i
  }

  /** `text.split(/\n\n+/)`: the pieces between the runs of two or more newlines. No piece has
      two newlines in a row. */
  function Split(s: string): (ps: seq<string>)
    ensures |ps| >= 1
    ensures forall k :: 0 <= k < |ps| ==> NoBreak(ps[k])
    decreases |s|
  {
    var i := FirstBreak(s, 0);
    if i < 0 then [s]
    else
      var head := s[..i];
      assert forall k :: 0 <= k < |head| ==> (BreakAt(head, k) ==> BreakAt(s, k));
      [head] + Split(s[RunEnd(s, i)..])
  }

  /** A piece that splitting leaves whole: non-empty, without two newlines in a row, and
      neither starting nor ending with a newline. */
  predicate Plain(p: string) {
    p != [] && NoBreak(p) && p[0] != '\n' && p[|p| - 1] != '\n'
  }

  /** Where a break of one or more blank lines separates a plain piece from the rest, the
      first break is right after the piece and the run ends where the rest begins. */
  lemma BreakAfterPiece(p: string, rest: string)
    requires Plain(p) && rest != [] && rest[0] != '\n'
    ensures var s := p + ("\n\n" + rest);
      FirstBreak(s, 0) == |p| && RunEnd(s, |p|) == |p| + 2
  {
    var s := p + ("\n\n" + rest);
    forall k | 0 <= k < |p|
      ensures !BreakAt(s, k)
    {
      if k + 1 < |p| {
        assert !BreakAt(p, k);
      }
    }
    assert BreakAt(s, |p|);
    assert s[|p| + 2] == rest[0];
  }

  /** Splitting at a known first break. */
  lemma SplitAt(s: string, i: nat, j: nat)
    requires FirstBreak(s, 0) == i && i < j <= |s| && RunEnd(s, i) == j
    ensures Split(s) == [s[..i]] + Split(s[j..])
  {
  }

  /** Joining plain pieces with blank lines and splitting again gives the pieces back. */
  lemma {:induction false} SplitJoin(ps: seq<string>)
    requires |ps| >= 1
    requires forall k :: 0 <= k < |ps| ==> Plain(ps[k])
    ensures Split(Join(ps, "\n\n")) == ps
    decreases |ps|
  {
    if |ps| == 1 {
      var r := FirstBreak(ps[0], 0);
      assert r != -1 ==> BreakAt(ps[0], r);
    } else {
      var p := ps[0];
      var rest := Join(ps[1..], "\n\n");
      var s := p + ("\n\n" + rest);
      assert Join(ps, "\n\n") == s by {
        JoinCons(ps, "\n\n");
      }
      assert rest != [] && rest[0] != '\n' by {
        JoinEnds(ps[1..], "\n\n");
        assert Plain(ps[1]);
        assert rest[..|ps[1]|] == ps[1];
        assert rest[0] == ps[1][0];
      }
      assert Split(s) == [p] + Split(rest) by {
        assert Plain(p);
        BreakAfterPiece(p, rest);
        SplitAt(s, |p|, |p| + 2);
        assert s[..|p|] == p;
        assert s[|p| + 2..] == rest;
      }
      assert Split(rest) == ps[1..] by {
        SplitJoin(ps[1..]);
      }
      assert ps == [p] + ps[1..];
    }
  }

  /** `para.replace(/\n/g, ' ')`. */
  function NewlinesToSpaces(p: string): (r: string)
    ensures |r| == |p| && '\n' !in r
    ensures forall i :: 0 <= i < |p| ==> r[i] == (if p[i] == '\n' then ' ' else p[i])
  {
    seq(|p|, i requires 0 <= i < |p| => if p[i] == '\n' then ' ' else p[i])
  }

  /** `.filter(Boolean).map(...)`: the non-empty pieces, in order, with newlines as spaces. */
  function Render(ps: seq<string>): (r: seq<string>)
    ensures |r| <= |ps|
    ensures forall k :: 0 <= k < |r| ==> r[k] != "" && '\n' !in r[k]
    decreases |ps|
  {
    if ps == [] then []
    else (if ps[0] == "" then [] else [NewlinesToSpaces(ps[0])]) + Render(ps[1..])
  }

  /** `renderText`: the paragraphs of a text. None is empty and none holds a newline. */
  function Paragraphs(text: string): (r: seq<string>)
    ensures forall k :: 0 <= k < |r| ==> r[k] != "" && '\n' !in r[k]
  {
    Render(Split(text))
  }

  /** Rendering pieces without newlines keeps them as they are. */
  lemma {:induction false} RenderPlain(ps: seq<string>)
    requires forall k :: 0 <= k < |ps| ==> ps[k] != "" && '\n' !in ps[k]
    ensures Render(ps) == ps
    decreases |ps|
  {
    if ps != [] {
      RenderPlain(ps[1..]);
      assert NewlinesToSpaces(ps[0]) == ps[0];
    }
  }

  /** A text made of single-line paragraphs separated by blank lines renders as exactly those
      paragraphs. */
  lemma ParagraphsOfJoin(ps: seq<string>)
    requires |ps| >= 1
    requires forall k :: 0 <= k < |ps| ==> ps[k] != "" && '\n' !in ps[k]
    ensures Paragraphs(Join(ps, "\n\n")) == ps
  {
    forall k | 0 <= k < |ps|
      ensures Plain(ps[k])
    {
      assert ps[k][0] in ps[k];
      assert ps[k][|ps[k]| - 1] in ps[k];
      forall i | 0 <= i < |ps[k]|
        ensures !BreakAt(ps[k], i)
      {
        assert ps[k][i] in ps[k];
      }
    }
    SplitJoin(ps);
    RenderPlain(ps);
  }

  // ---------------------------------------------------------------------------
  // Sections
  // ---------------------------------------------------------------------------

  /** The section headings, in the order the sections appear. */
  const Headings: seq<string> := ["Question", "Facts", "Analysis", "Conclusion"]

  /** The text of the `k`-th section of an opinion. */
  function Field(d: OpinionDetail, k: int): Option<string>
    requires 0 <= k < 4
  {
    if k == 0 then d.question
    else if k == 1 then d.facts
    else if k == 2 then d.analysis
    else d.conclusion
  }

  /** The sections from `k` on that have text, in order. */
  function ShownFrom(d: OpinionDetail, k: nat): (r: seq<nat>)
    requires k <= 4
    ensures forall j :: 0 <= j < |r| ==> k <= r[j] < 4 && Truthy(Field(d, r[j]))
    ensures forall i, j :: 0 <= i < j < |r| ==> r[i] < r[j]
    ensures forall x :: k <= x < 4 && Truthy(Field(d, x)) ==> x in r
    decreases 4 - k
  {
    if k == 4 then []
    else (if Truthy(Field(d, k)) then [k] else []) + ShownFrom(d, k + 1)
  }

  /** One rendered section: its heading, its paragraphs, and whether it is styled as the first. */
  datatype SectionView = SectionView(heading: string, paragraphs: seq<string>, first: bool)

  datatype BodyView = BodyView(caveat: bool, sections: seq<SectionView>)

  /** `OpinionBody`: nothing when no section has text. Otherwise the sections with text, in
      the fixed order Question, Facts, Analysis, Conclusion, each with the paragraphs of its
      text and only the first styled as first; the caveat shows exactly when the opinion is
      known not to have the standard format. */
  function Body(d: OpinionDetail): (v: Option<BodyView>)
    ensures v.None? <==> forall k :: 0 <= k < 4 ==> !Truthy(Field(d, k))
    ensures v.Some? ==> (v.value.caveat <==> d.hasStandardFormat == Some(false))
    ensures v.Some? ==>
      var idx := ShownFrom(d, 0);
      && |v.value.sections| == |idx|
      && (forall j :: 0 <= j < |idx| ==>
            v.value.sections[j] == SectionView(Headings[idx[j]], Paragraphs(Field(d, idx[j]).value), j == 0))
  {
    var idx := ShownFrom(d, 0);
    if idx == [] then
      None
    else
      Some(BodyView(d.hasStandardFormat == Some(false),
        seq(|idx|, j requires 0 <= j < |idx| =>
          SectionView(Headings[idx[j]], Paragraphs(Field(d, idx[j]).value), j == 0))))
  }

  /** The position of a heading in the fixed order. */
  function Rank(heading: string): int {
    if heading == "Question" then 0
    else if heading == "Facts" then 1
    else if heading == "Analysis" then 2
    else if heading == "Conclusion" then 3
    else 4
  }

  lemma RankOfHeading(k: int)
    requires 0 <= k < 4
    ensures Rank(Headings[k]) == k
  {
    if k == 0 {
      assert Headings[0] == "Question";
    } else if k == 1 {
      assert Headings[1] == "Facts";
      assert Headings[1] != "Question";
    } else if k == 2 {
      assert Headings[2] == "Analysis";
      assert Headings[2] != "Question" && Headings[2] != "Facts";
    } else {
      assert Headings[3] == "Conclusion";
      assert Headings[3] != "Question" && Headings[3] != "Facts" && Headings[3] != "Analysis";
    }
  }

  /** The headings shown are in the fixed order, a heading is shown exactly when its section
      has text, and exactly one section is styled as first. */
  lemma BodySections(d: OpinionDetail)
    requires Body(d).Some?
    ensures var s := Body(d).value.sections;
      && (forall i, j :: 0 <= i < j < |s| ==> Rank(s[i].heading) < Rank(s[j].heading) < 4)
      && (forall k :: 0 <= k < 4 ==>
            (Truthy(Field(d, k)) <==> exists j :: 0 <= j < |s| && Rank(s[j].heading) == k))
      && (forall j :: 0 <= j < |s| ==> (s[j].first <==> j == 0))
  {
    var s := Body(d).value.sections;
    var idx := ShownFrom(d, 0);
    forall j | 0 <= j < |s|
      ensures Rank(s[j].heading) == idx[j]
    {
      RankOfHeading(idx[j]);
    }
    forall k | 0 <= k < 4 && Truthy(Field(d, k))
      ensures exists j :: 0 <= j < |s| && Rank(s[j].heading) == k
    {
      var j :| 0 <= j < |idx| && idx[j] == k;
      assert Rank(s[j].heading) == k;
    }
  }
}
