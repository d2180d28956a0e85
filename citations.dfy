/** Extraction of Government Code sections and FPPC regulations from a query string. */
module Citations {
  import opened Common

  /** One extracted reference: `raw` is what de-duplication compares. */
  datatype Citation = Citation(raw: string, base: string, subsection: string)

  /** A match of one of the four patterns: where the scan resumes, and the citation it yields. */
  datatype Match = Match(end: nat, cite: Citation)

  /** The four patterns; `BareStatuteAsWritten` is the bare statute pattern as written in the
      source, `BareStatute` the corrected one the parser uses. */
  datatype Pattern = PrefixedStatute | PrefixedRegulation | BareStatute | BareStatuteAsWritten | BareRegulation

  // ---------------------------------------------------------------------------
  // Scanning helpers
  // ---------------------------------------------------------------------------

  /** `kw` (lower-case) occurs at `i`, compared case-insensitively. */
  predicate KeywordAt(s: string, i: nat, kw: string) {
    i + |kw| <= |s| && Lower(s[i..i + |kw|]) == kw
  }

  /** Number of `\s` characters starting at `i`. */
  function SpaceRun(s: string, i: nat): (k: nat)
    requires i <= |s|
    ensures i + k <= |s|
    decreases |s| - i
  {
    if i < |s| && s[i] in PyWhitespace then 1 + SpaceRun(s, i + 1) else 0
  }

  /** Number of digits starting at `i`. */
  function DigitsFrom(s: string, i: nat): (k: nat)
    requires i <= |s|
    ensures i + k <= |s|
    ensures forall j :: i <= j < i + k ==> IsDigit(s[j])
    ensures i + k < |s| ==> !IsDigit(s[i + k])
    decreases |s| - i
  {
    if i < |s| && IsDigit(s[i]) then 1 + DigitsFrom(s, i + 1) else 0
  }

  /** `\b` at a position where the next character is a word character. */
  predicate BoundaryBefore(s: string, i: nat)
    requires i <= |s|
  {
    i == 0 || !IsWordChar(s[i - 1])
  }

  /** `\b` at a position where the previous character is a word character. */
  predicate BoundaryAfter(s: string, i: nat)
    requires i <= |s|
  {
    i == |s| || !IsWordChar(s[i])
  }

  /** `\([a-zA-Z0-9]\)` at `p`. */
  predicate ParenSubAt(s: string, p: nat) {
    p + 3 <= |s| && s[p] == '(' && IsAlnum(s[p + 1]) && s[p + 2] == ')'
  }

  // ---------------------------------------------------------------------------
  // The four patterns at one position
  // ---------------------------------------------------------------------------

  /** End of `Section` or `Gov(?:ernment)?\.?\s*Code` at `i`, if either matches there. */
  function StatutePrefixEnd(s: string, i: nat): (r: Option<nat>)
    requires i <= |s|
    ensures r.Some? ==> i < r.value <= |s|
  {
    if KeywordAt(s, i, "section") then Some(i + 7)
    else if KeywordAt(s, i, "gov") then
      var j1 := if KeywordAt(s, i + 3, "ernment") then i + 10 else i + 3;
      var j2 := if j1 < |s| && s[j1] == '.' then j1 + 1 else j1;
      var j3 := j2 + SpaceRun(s, j2);
      if KeywordAt(s, j3, "code") then Some(j3 + 4) else None
    else None
  }

  /** `(\d{3,5})(\([a-zA-Z0-9]\))?` at `q`: three to five digits (at most five taken from a
      longer run) and an optional parenthesised subsection. */
  function StatuteNumberAt(s: string, q: nat): (r: Option<Match>)
    requires q <= |s|
    ensures r.Some? ==> q < r.value.end <= |s|
  {
    var d := DigitsFrom(s, q);
    if d < 3 then None
    else
      var p := q + (if d < 5 then d else 5);
      var base := s[q..p];
      if ParenSubAt(s, p) then Some(Match(p + 3, Citation(base + s[p..p + 3], base, s[p..p + 3])))
      else Some(Match(p, Citation(base, base, "")))
  }

  /** `(?:Section|Gov(?:ernment)?\.?\s*Code)\s+(\d{3,5})(\([a-zA-Z0-9]\))?`, case-insensitive. */
  function PrefixedStatuteAt(s: string, i: nat): (r: Option<Match>)
    requires i <= |s|
    ensures r.Some? ==> i < r.value.end <= |s|
  {
    match StatutePrefixEnd(s, i)
    case None => None
    case Some(j) =>
      var k := SpaceRun(s, j);
      if k == 0 then None else StatuteNumberAt(s, j + k)
  }


  /** `base`/`subsection` split of a regulation number: up to the first `.`, and the rest. */
  function RegulationCitation(full: string): (c: Citation)
    ensures c.raw == full && c.base + c.subsection == full
    ensures '.' !in c.base
    ensures c.subsection == [] || c.subsection[0] == '.'
  {
    if '.' in full then
      var k := FirstDot(full);
      Citation(full, full[..k], full[k..])
    else Citation(full, full, "")
  }

  /** Index of the first `.` in `s`. */
  function FirstDot(s: string): (k: nat)
    requires '.' in s
    ensures k < |s| && s[k] == '.' && '.' !in s[..k]
  {
    if s[0] == '.' then 0
    else
      assert '.' in s[1..] by {
        var j :| 0 <= j < |s| && s[j] == '.';
        assert s[1..][j - 1] == '.';
      }
      var k := 1 + FirstDot(s[1..]);
      assert s[..k] == [s[0]] + s[1..][..k - 1];
      k
  }

  /** End of `Reg(?:ulation)?\.?` at `i`, case-insensitive, if it matches there. */
  function RegulationPrefixEnd(s: string, i: nat): (r: Option<nat>)
    requires i <= |s|
    ensures r.Some? ==> i < r.value <= |s|
  {
    if !KeywordAt(s, i, "reg") then None
    else
      var j := if KeywordAt(s, i + 3, "ulation") then i + 10 else i + 3;
      Some(if j < |s| && s[j] == '.' then j + 1 else j)
  }

  /** End of the optional decimal part `(?:\.\d+)?` at `p`, taken whenever it is there. */
  function DecimalEnd(s: string, p: nat): (q: nat)
    requires p <= |s|
    ensures p <= q <= |s|
    ensures q == p || (q >= p + 2 && s[p] == '.' && forall j :: p < j < q ==> IsDigit(s[j]))
  {
    if p + 1 < |s| && s[p] == '.' && IsDigit(s[p + 1]) then p + 1 + DigitsFrom(s, p + 1) else p
  }

  /** Where a regulation number lies: digits from `lo` to `mid`, then any decimal part to `hi`. */
  datatype Span = Span(lo: nat, mid: nat, hi: nat)

  predicate RegulationSpan(s: string, sp: Span) {
    && sp.lo <= sp.mid <= sp.hi <= |s| && 4 <= sp.mid - sp.lo <= 5
    && (forall j :: sp.lo <= j < sp.mid ==> IsDigit(s[j]))
    && (|| sp.hi == sp.mid
        || (sp.hi >= sp.mid + 2 && s[sp.mid] == '.' && forall j :: sp.mid < j < sp.hi ==> IsDigit(s[j])))
  }

  /** The number matched by `(?:Reg(?:ulation)?\.?)\s+(\d{4,5}(?:\.\d+)?)` at `i`. */
  function PrefixedRegulationSpan(s: string, i: nat): (r: Option<Span>)
    requires i <= |s|
    ensures r.Some? ==> i < r.value.lo && RegulationSpan(s, r.value)
  {
    match RegulationPrefixEnd(s, i)
    case None => None
    case Some(j) =>
      var k := SpaceRun(s, j);
      var d := DigitsFrom(s, j + k);
      if k == 0 || d < 4 then None
      else
        var p := j + k + (if d < 5 then d else 5);
        Some(Span(j + k, p, DecimalEnd(s, p)))
  }

  /** `(?:Reg(?:ulation)?\.?)\s+(\d{4,5}(?:\.\d+)?)`, case-insensitive. */
  function PrefixedRegulationAt(s: string, i: nat): (r: Option<Match>)
    requires i <= |s|
    ensures r.Some? ==> i < r.value.end <= |s|
  {
    match PrefixedRegulationSpan(s, i)
    case None => None
    case Some(sp) => Some(Match(sp.hi, RegulationCitation(s[sp.lo..sp.hi])))
  }

  /** `8[1-9]\d{3}|90\d{3}|91014|109[0-7]`: length of the alternative matching at `i`, or 0. */
  function BareStatuteBaseLength(s: string, i: nat): (n: nat)
    ensures n == 0 || n == 4 || n == 5
    ensures n > 0 ==> i + n <= |s|
  {
    if i + 5 <= |s| && s[i] == '8' && '1' <= s[i + 1] <= '9'
       && IsDigit(s[i + 2]) && IsDigit(s[i + 3]) && IsDigit(s[i + 4]) then 5
    else if i + 5 <= |s| && s[i] == '9' && s[i + 1] == '0'
       && IsDigit(s[i + 2]) && IsDigit(s[i + 3]) && IsDigit(s[i + 4]) then 5
    else if i + 5 <= |s| && s[i..i + 5] == "91014" then 5
    else if i + 4 <= |s| && s[i..i + 3] == "109" && '0' <= s[i + 3] <= '7' then 4
    else 0
  }

  /** `\b(8[1-9]\d{3}|90\d{3}|91014|109[0-7])(?:\(([a-zA-Z0-9])\))?\b` with the regex engine's
      backtracking: the subsection is taken only when a word character follows its `)`;
      otherwise the match falls back to the bare number, since `(` gives the final `\b`. */
  function BareStatuteAtAsWritten(s: string, i: nat): (r: Option<Match>)
    requires i <= |s|
    ensures r.Some? ==> i < r.value.end <= |s|
  {
    var n := BareStatuteBaseLength(s, i);
    if n == 0 || !BoundaryBefore(s, i) then None
    else
      var p := i + n;
      var base := s[i..p];
      if ParenSubAt(s, p) && p + 3 < |s| && IsWordChar(s[p + 3]) then
        Some(Match(p + 3, Citation(base + s[p..p + 3], base, s[p..p + 3])))
      else if BoundaryAfter(s, p) then Some(Match(p, Citation(base, base, "")))
      else None
  }

  /** The bare statute pattern as evidently intended: a parenthesised subsection directly after
      the number is part of the citation, and the word boundary is required only otherwise. */
  function BareStatuteAt(s: string, i: nat): (r: Option<Match>)
    requires i <= |s|
    ensures r.Some? ==> i < r.value.end <= |s|
  {
    var n := BareStatuteBaseLength(s, i);
    if n == 0 || !BoundaryBefore(s, i) then None
    else
      var p := i + n;
      var base := s[i..p];
      if ParenSubAt(s, p) then Some(Match(p + 3, Citation(base + s[p..p + 3], base, s[p..p + 3])))
      else if BoundaryAfter(s, p) then Some(Match(p, Citation(base, base, "")))
      else None
  }

  /** `\b(18\d{3}(?:\.\d+)?)\b` with backtracking: a decimal part followed by a word character is
      dropped and the match ends at the `.`. */
  function BareRegulationSpan(s: string, i: nat): (r: Option<Span>)
    requires i <= |s|
    ensures r.Some? ==> r.value.lo == i && r.value.mid == i + 5 && RegulationSpan(s, r.value)
    ensures r.Some? ==> s[i] == '1' && s[i + 1] == '8'
  {
    if !(i + 5 <= |s| && s[i] == '1' && s[i + 1] == '8' && IsDigit(s[i + 2])
         && IsDigit(s[i + 3]) && IsDigit(s[i + 4])) || !BoundaryBefore(s, i) then None
    else
      var p := i + 5;
      var q := DecimalEnd(s, p);
      if q > p && BoundaryAfter(s, q) then Some(Span(i, p, q))
      else if BoundaryAfter(s, p) then Some(Span(i, p, p))
      else None
  }

  function BareRegulationAt(s: string, i: nat): (r: Option<Match>)
    requires i <= |s|
    ensures r.Some? ==> i < r.value.end <= |s|
  {
    match BareRegulationSpan(s, i)
    case None => None
    case Some(sp) => Some(Match(sp.hi, RegulationCitation(s[sp.lo..sp.hi])))
  }

  function MatchAt(pat: Pattern, s: string, i: nat): (r: Option<Match>)
    requires i <= |s|
    ensures r.Some? ==> i < r.value.end <= |s|
  {
    match pat
    case PrefixedStatute => PrefixedStatuteAt(s, i)
    case PrefixedRegulation => PrefixedRegulationAt(s, i)
    case BareStatute => BareStatuteAt(s, i)
    case BareStatuteAsWritten => BareStatuteAtAsWritten(s, i)
    case BareRegulation => BareRegulationAt(s, i)
  }

  /** `finditer` from position `i`: the leftmost match, then the scan resumes at its end. */
  function FindAll(pat: Pattern, s: string, i: nat): seq<Citation>
    requires i <= |s|
    decreases |s| - i
  {
    if i == |s| then []
    else match MatchAt(pat, s, i)
      case Some(m) => [m.cite] + FindAll(pat, s, m.end)
      case None => FindAll(pat, s, i + 1)
  }

  // ---------------------------------------------------------------------------
  // De-duplication by `raw` (the `seen_gc` / `seen_reg` sets)
  // ---------------------------------------------------------------------------

  function Raws(cs: seq<Citation>): set<string> {
    set c | c in cs :: c.raw
  }

  /** Appends each citation in turn unless its `raw` is already among those appended. */
  function Dedup(cs: seq<Citation>): seq<Citation>
    decreases |cs|
  {
    if cs == [] then []
    else
      var prev := Dedup(cs[..|cs| - 1]);
      if cs[|cs| - 1].raw in Raws(prev) then prev else prev + [cs[|cs| - 1]]
  }

  predicate DistinctRaws(cs: seq<Citation>) {
    forall i, j :: 0 <= i < j < |cs| ==> cs[i].raw != cs[j].raw
  }

  function GovCodeCitations(query: string): seq<Citation> {
    Dedup(FindAll(PrefixedStatute, query, 0) + FindAll(BareStatute, query, 0))
  }

  function RegulationCitations(query: string): seq<Citation> {
    Dedup(FindAll(PrefixedRegulation, query, 0) + FindAll(BareRegulation, query, 0))
  }

  /** One more item of the de-duplication fold. */
  lemma DedupStep(cs: seq<Citation>, i: nat)
    requires i < |cs|
    ensures Dedup(cs[..i + 1]) ==
      if cs[i].raw in Raws(Dedup(cs[..i])) then Dedup(cs[..i]) else Dedup(cs[..i]) + [cs[i]]
  {
    assert cs[..i + 1][..i] == cs[..i];
  }

  lemma RawsSnoc(cs: seq<Citation>, c: Citation)
    ensures Raws(cs + [c]) == Raws(cs) + {c.raw}
  {
    assert forall x :: x in cs + [c] <==> x in cs || x == c;
  }

  /** One pass of a de-duplicating loop: after `acc`, holding the first `i` items folded, item `i`
      is appended exactly when its `raw` is not yet seen. */
  lemma PassStep(cs: seq<Citation>, i: nat, acc: seq<Citation>, seen: set<string>)
    requires i < |cs| && acc == Dedup(cs[..i]) && seen == Raws(acc)
    ensures cs[i].raw in seen ==> Dedup(cs[..i + 1]) == acc
    ensures cs[i].raw !in seen ==>
      Dedup(cs[..i + 1]) == acc + [cs[i]] && seen + {cs[i].raw} == Raws(acc + [cs[i]])
  {
    DedupStep(cs, i);
    RawsSnoc(acc, cs[i]);
  }

  /** One pass of `parse_query_citations` over the citations of one pattern, here positions
      `from` to `to` of all the citations of its kind: each is appended unless its `raw` has
      been seen, by this pass or an earlier one. */
  method DedupPass(cs: seq<Citation>, from: nat, to: nat, acc: seq<Citation>, seen: set<string>)
    returns (kept: seq<Citation>, keptSeen: set<string>)
    requires from <= to <= |cs| && acc == Dedup(cs[..from]) && seen == Raws(acc)
    ensures kept == Dedup(cs[..to]) && keptSeen == Raws(kept)
  {
    kept, keptSeen := acc, seen;
    for i := from to to
      invariant kept == Dedup(cs[..i]) && keptSeen == Raws(kept)
    {
      PassStep(cs, i, kept, keptSeen);
      var c := cs[i];
      if c.raw !in keptSeen {
        keptSeen := keptSeen + {c.raw};
        kept := kept + [c];
      }
    }
  }

  /** `parse_query_citations`: four passes, prefixed before bare, each skipping a `raw` already
      seen. */
  method ParseQueryCitations(query: string) returns (govCode: seq<Citation>, regulations: seq<Citation>)
    ensures govCode == GovCodeCitations(query)
    ensures regulations == RegulationCitations(query)
  {
    var prefixedStatutes := FindAll(PrefixedStatute, query, 0);
    var prefixedRegs := FindAll(PrefixedRegulation, query, 0);
    var allStatutes := prefixedStatutes + FindAll(BareStatute, query, 0);
    var allRegs := prefixedRegs + FindAll(BareRegulation, query, 0);
    var seenGc: set<string>, seenReg: set<string>;
    govCode, seenGc := DedupPass(allStatutes, 0, |prefixedStatutes|, [], {});
    regulations, seenReg := DedupPass(allRegs, 0, |prefixedRegs|, [], {});
    govCode, seenGc := DedupPass(allStatutes, |prefixedStatutes|, |allStatutes|, govCode, seenGc);
    regulations, seenReg := DedupPass(allRegs, |prefixedRegs|, |allRegs|, regulations, seenReg);
    assert allStatutes[..|allStatutes|] == allStatutes;
    assert allRegs[..|allRegs|] == allRegs;
  }

  // ---------------------------------------------------------------------------
  // De-duplication: distinct, complete, first occurrence kept, earlier passes first
  // ---------------------------------------------------------------------------

  /** No two kept citations share a `raw`. */
  lemma {:induction false} DedupDistinct(cs: seq<Citation>)
    ensures DistinctRaws(Dedup(cs))
    decreases |cs|
  {
    if cs != [] {
      var prev := Dedup(cs[..|cs| - 1]);
      DedupDistinct(cs[..|cs| - 1]);
      if cs[|cs| - 1].raw !in Raws(prev) {
        var r := prev + [cs[|cs| - 1]];
        forall i, j | 0 <= i < j < |r| ensures r[i].raw != r[j].raw {
          if j == |r| - 1 {
            assert r[i] in prev;
          }
        }
      }
    }
  }

  /** Every kept citation comes from the input, and every input `raw` is kept. */
  lemma {:induction false} DedupRaws(cs: seq<Citation>)
    ensures forall c :: c in Dedup(cs) ==> c in cs
    ensures Raws(Dedup(cs)) == Raws(cs)
    decreases |cs|
  {
    if cs != [] {
      var init := cs[..|cs| - 1];
      DedupRaws(init);
      assert cs == init + [cs[|cs| - 1]];
      RawsSnoc(init, cs[|cs| - 1]);
      RawsSnoc(Dedup(init), cs[|cs| - 1]);
    }
  }

  /** The citation kept for a `raw` is its first occurrence in the input. */
  lemma {:induction false} DedupKeepsFirst(cs: seq<Citation>, j: nat)
    requires j < |cs|
    requires forall i :: 0 <= i < j ==> cs[i].raw != cs[j].raw
    ensures cs[j] in Dedup(cs)
    decreases |cs|
  {
    var init := cs[..|cs| - 1];
    DedupRaws(init);
    if j < |cs| - 1 {
      assert init[j] == cs[j];
      DedupKeepsFirst(init, j);
    }
  }

  /** The citations kept from the first `n` inputs stay in front; what follows comes from the
      later inputs, each with a `raw` none of the first `n` had. */
  lemma {:induction false} DedupExtends(cs: seq<Citation>, n: nat)
    requires n <= |cs|
    ensures var pre, all := Dedup(cs[..n]), Dedup(cs);
      |pre| <= |all| && all[..|pre|] == pre
      && forall k :: |pre| <= k < |all| ==> all[k] in cs[n..] && all[k].raw !in Raws(cs[..n])
    decreases |cs|
  {
    if n == |cs| {
      assert cs[..n] == cs;
    } else {
      var init, last := cs[..|cs| - 1], cs[|cs| - 1];
      assert init[..n] == cs[..n];
      DedupExtends(init, n);
      var pre, prev := Dedup(cs[..n]), Dedup(init);
      assert cs[n..] == init[n..] + [last];
      if last.raw !in Raws(prev) {
        assert Dedup(cs) == prev + [last];
        DedupRaws(init);
        RawsAppend(init[..n], init[n..]);
        assert init == init[..n] + init[n..];
        SnocExtends(pre, prev, last, init[n..] + [last], Raws(cs[..n]));
      }
    }
  }

  /** Appending a citation with a new `raw` to a fold result that extends `pre` keeps the
      extension's shape. */
  lemma SnocExtends(pre: seq<Citation>, prev: seq<Citation>, last: Citation, later: seq<Citation>,
                    earlier: set<string>)
    requires |pre| <= |prev| && prev[..|pre|] == pre
    requires forall k :: |pre| <= k < |prev| ==> prev[k] in later && prev[k].raw !in earlier
    requires last in later && last.raw !in earlier
    ensures var all := prev + [last];
      all[..|pre|] == pre && forall k :: |pre| <= k < |all| ==> all[k] in later && all[k].raw !in earlier
  {
    var all := prev + [last];
    assert all[..|pre|] == prev[..|pre|];
    forall k | |pre| <= k < |all|
      ensures all[k] in later && all[k].raw !in earlier
    {
      if k < |prev| {
        assert all[k] == prev[k];
      }
    }
  }

  /** The kept citations of a pass's matches followed by another pass's matches: those of the
      first pass, unchanged and in front, then new `raw`s from the second. */
  lemma EarlierPassFirst(a: seq<Citation>, b: seq<Citation>)
    ensures var pre, all := Dedup(a), Dedup(a + b);
      |pre| <= |all| && all[..|pre|] == pre
      && forall k :: |pre| <= k < |all| ==> all[k] in b && all[k].raw !in Raws(a)
  {
    assert (a + b)[..|a|] == a;
    assert (a + b)[|a|..] == b;
    DedupExtends(a + b, |a|);
  }

  /** `parse_query_citations` returns each `raw` once, keeping every match's `raw`, prefixed
      matches ahead of bare ones and a bare match only when no prefixed match had its `raw`. */
  lemma ParsedCitationsDeduplicated(query: string)
    ensures DistinctRaws(GovCodeCitations(query)) && DistinctRaws(RegulationCitations(query))
    ensures Raws(GovCodeCitations(query))
      == Raws(FindAll(PrefixedStatute, query, 0)) + Raws(FindAll(BareStatute, query, 0))
    ensures Raws(RegulationCitations(query))
      == Raws(FindAll(PrefixedRegulation, query, 0)) + Raws(FindAll(BareRegulation, query, 0))
    ensures var pre, all := Dedup(FindAll(PrefixedStatute, query, 0)), GovCodeCitations(query);
      |pre| <= |all| && all[..|pre|] == pre
      && forall k :: |pre| <= k < |all| ==> all[k].raw !in Raws(FindAll(PrefixedStatute, query, 0))
    ensures var pre, all := Dedup(FindAll(PrefixedRegulation, query, 0)), RegulationCitations(query);
      |pre| <= |all| && all[..|pre|] == pre
      && forall k :: |pre| <= k < |all| ==> all[k].raw !in Raws(FindAll(PrefixedRegulation, query, 0))
  {
    var ps, bs := FindAll(PrefixedStatute, query, 0), FindAll(BareStatute, query, 0);
    var pr, br := FindAll(PrefixedRegulation, query, 0), FindAll(BareRegulation, query, 0);
    DedupDistinct(ps + bs);
    DedupDistinct(pr + br);
    DedupRaws(ps + bs);
    DedupRaws(pr + br);
    RawsAppend(ps, bs);
    RawsAppend(pr, br);
    EarlierPassFirst(ps, bs);
    EarlierPassFirst(pr, br);
  }

  lemma RawsAppend(a: seq<Citation>, b: seq<Citation>)
    ensures Raws(a + b) == Raws(a) + Raws(b)
  {
    assert forall x :: x in a + b <==> x in a || x in b;
  }

  // ---------------------------------------------------------------------------
  // What a match looks like
  // ---------------------------------------------------------------------------

  /** A Government Code citation: 3 to 5 digits and at most one parenthesised letter or digit. */
  predicate StatuteShape(c: Citation) {
    && c.raw == c.base + c.subsection
    && 3 <= |c.base| <= 5 && AllDigits(c.base)
    && (c.subsection == [] || (|c.subsection| == 3 && c.subsection[0] == '('
                               && IsAlnum(c.subsection[1]) && c.subsection[2] == ')'))
  }

  /** A regulation citation: 4 or 5 digits, optionally `.` and more digits. */
  predicate RegulationShape(c: Citation) {
    && c.raw == c.base + c.subsection
    && 4 <= |c.base| <= 5 && AllDigits(c.base)
    && (c.subsection == [] || (|c.subsection| >= 2 && c.subsection[0] == '.' && AllDigits(c.subsection[1..])))
  }

  /** The statute numbers the bare pattern is meant to accept: 81000-90999, 91014 and 1090-1097. */
  predicate FppcStatuteNumber(b: string) {
    && AllDigits(b)
    && ((|b| == 5 && (81000 <= DigitsValue(b) <= 90999 || DigitsValue(b) == 91014))
        || (|b| == 4 && 1090 <= DigitsValue(b) <= 1097))
  }

  /** The regulation numbers the bare pattern is meant to accept: 18000-18999. */
  predicate FppcRegulationNumber(b: string) {
    |b| == 5 && AllDigits(b) && 18000 <= DigitsValue(b) <= 18999
  }

  predicate Shape(pat: Pattern, c: Citation) {
    match pat
    case PrefixedStatute => StatuteShape(c)
    case BareStatute => StatuteShape(c) && FppcStatuteNumber(c.base)
    case BareStatuteAsWritten => StatuteShape(c) && FppcStatuteNumber(c.base)
    case PrefixedRegulation => RegulationShape(c)
    case BareRegulation => RegulationShape(c) && FppcRegulationNumber(c.base)
  }

  function DigitOf(c: char): int { c as int - '0' as int }

  lemma Value4(b: string)
    requires |b| == 4 && AllDigits(b)
    ensures DigitsValue(b) == 1000 * DigitOf(b[0]) + 100 * DigitOf(b[1]) + 10 * DigitOf(b[2]) + DigitOf(b[3])
  {
    var b3, b2, b1 := b[..3], b[..2], b[..1];
    assert b3[..2] == b2 && b2[..1] == b1 && b1[..0] == [];
    assert DigitsValue(b1) == DigitOf(b[0]);
    assert DigitsValue(b2) == 10 * DigitOf(b[0]) + DigitOf(b[1]);
    assert DigitsValue(b3) == 100 * DigitOf(b[0]) + 10 * DigitOf(b[1]) + DigitOf(b[2]);
  }

  lemma Value5(b: string)
    requires |b| == 5 && AllDigits(b)
    ensures DigitsValue(b) == 10000 * DigitOf(b[0]) + 1000 * DigitOf(b[1]) + 100 * DigitOf(b[2])
                              + 10 * DigitOf(b[3]) + DigitOf(b[4])
  {
    Value4(b[..4]);
  }

  /** The bare statute alternation accepts exactly the FPPC statute numbers. */
  lemma BareStatuteAlternatives(s: string, i: nat)
    ensures var n := BareStatuteBaseLength(s, i);
      n > 0 ==> FppcStatuteNumber(s[i..i + n])
    ensures i + 5 <= |s| && FppcStatuteNumber(s[i..i + 5]) ==> BareStatuteBaseLength(s, i) == 5
    ensures i + 4 <= |s| && FppcStatuteNumber(s[i..i + 4]) ==> BareStatuteBaseLength(s, i) == 4
  {
    if i + 5 <= |s| {
      var b := s[i..i + 5];
      FiveDigitRange(b);
      assert FiveDigitAlternative(b) <==>
        || (s[i] == '8' && '1' <= s[i + 1] <= '9' && IsDigit(s[i + 2]) && IsDigit(s[i + 3]) && IsDigit(s[i + 4]))
        || (s[i] == '9' && s[i + 1] == '0' && IsDigit(s[i + 2]) && IsDigit(s[i + 3]) && IsDigit(s[i + 4]))
        || s[i..i + 5] == "91014";
    }
    if i + 4 <= |s| {
      var b := s[i..i + 4];
      FourDigitRange(b);
      assert s[i..i + 3] == b[..3];
      if FppcStatuteNumber(b) {
        assert b[0] == '1';
      }
    }
  }

  /** The five-digit alternatives `8[1-9]\d{3}|90\d{3}|91014` as a condition on a string. */
  predicate FiveDigitAlternative(b: string)
    requires |b| == 5
  {
    || (b[0] == '8' && '1' <= b[1] <= '9' && IsDigit(b[2]) && IsDigit(b[3]) && IsDigit(b[4]))
    || (b[0] == '9' && b[1] == '0' && IsDigit(b[2]) && IsDigit(b[3]) && IsDigit(b[4]))
    || b == "91014"
  }

  lemma FiveDigitRange(b: string)
    requires |b| == 5
    ensures FiveDigitAlternative(b) <==> FppcStatuteNumber(b)
  {
    if FiveDigitAlternative(b) {
      assert AllDigits(b);
    }
    if AllDigits(b) {
      Value5(b);
      if DigitsValue(b) == 91014 {
        assert b == "91014";
      }
    }
  }

  lemma FourDigitRange(b: string)
    requires |b| == 4
    ensures (b[..3] == "109" && '0' <= b[3] <= '7') <==> FppcStatuteNumber(b)
  {
    if b[..3] == "109" {
      assert b[0] == '1' && b[1] == '0' && b[2] == '9';
    }
    if AllDigits(b) {
      Value4(b);
      if 1090 <= DigitsValue(b) <= 1097 {
        assert b[..3] == "109";
      }
    }
  }

  /** `18\d{3}` accepts exactly the FPPC regulation numbers. */
  lemma BareRegulationRange(b: string)
    requires |b| == 5 && AllDigits(b)
    ensures (b[0] == '1' && b[1] == '8') <==> FppcRegulationNumber(b)
  {
    Value5(b);
  }

  /** The first `.` after a run of digits is the one that ends it. */
  lemma {:induction false} FirstDotAfterDigits(d: string, rest: string)
    requires AllDigits(d) && rest != [] && rest[0] == '.'
    ensures '.' in d + rest && FirstDot(d + rest) == |d|
    decreases |d|
  {
    assert (d + rest)[|d|] == '.';
    if d != [] {
      assert (d + rest)[1..] == d[1..] + rest;
      FirstDotAfterDigits(d[1..], rest);
    }
  }

  /** A regulation number with its decimal part splits at the `.`. */
  lemma RegulationSplit(d: string, rest: string)
    requires AllDigits(d)
    requires rest == [] || rest[0] == '.'
    ensures RegulationCitation(d + rest) == Citation(d + rest, d, rest)
  {
    if rest != [] {
      FirstDotAfterDigits(d, rest);
    } else {
      assert d + rest == d;
    }
  }

  lemma PrefixedStatuteShape(s: string, i: nat)
    requires i <= |s|
    ensures PrefixedStatuteAt(s, i).Some? ==> StatuteShape(PrefixedStatuteAt(s, i).value.cite)
  {
  }

  lemma BareStatuteShape(s: string, i: nat)
    requires i <= |s|
    ensures BareStatuteAt(s, i).Some? ==> Shape(BareStatute, BareStatuteAt(s, i).value.cite)
    ensures BareStatuteAtAsWritten(s, i).Some? ==>
      Shape(BareStatuteAsWritten, BareStatuteAtAsWritten(s, i).value.cite)
  {
    BareStatuteAlternatives(s, i);
    var p := i + BareStatuteBaseLength(s, i);
    if p + 3 <= |s| {
      var sub := s[p..p + 3];
      assert sub[0] == s[p] && sub[1] == s[p + 1] && sub[2] == s[p + 2];
    }
  }

  /** The regulation number a span delimits splits at its `.` into a well-formed citation. */
  lemma SpanShape(s: string, sp: Span)
    requires RegulationSpan(s, sp)
    ensures RegulationCitation(s[sp.lo..sp.hi]) == Citation(s[sp.lo..sp.hi], s[sp.lo..sp.mid], s[sp.mid..sp.hi])
    ensures RegulationShape(RegulationCitation(s[sp.lo..sp.hi]))
  {
    var d, rest := s[sp.lo..sp.mid], s[sp.mid..sp.hi];
    assert s[sp.lo..sp.hi] == d + rest;
    assert |d| == sp.mid - sp.lo;
    assert AllDigits(d) by {
      forall j | 0 <= j < |d|
        ensures IsDigit(d[j])
      {
        assert d[j] == s[sp.lo + j];
      }
    }
    if sp.hi > sp.mid {
      assert rest[0] == s[sp.mid];
      assert AllDigits(rest[1..]) by {
        forall j | 0 <= j < |rest| - 1
          ensures IsDigit(rest[1..][j])
        {
          assert rest[1..][j] == s[sp.mid + 1 + j];
        }
      }
    }
    RegulationSplit(d, rest);
  }

  lemma PrefixedRegulationShape(s: string, i: nat)
    requires i <= |s|
    ensures PrefixedRegulationAt(s, i).Some? ==> RegulationShape(PrefixedRegulationAt(s, i).value.cite)
  {
    var sp := PrefixedRegulationSpan(s, i);
    if sp.Some? {
      SpanShape(s, sp.value);
    }
  }

  lemma BareRegulationShape(s: string, i: nat)
    requires i <= |s|
    ensures BareRegulationAt(s, i).Some? ==> Shape(BareRegulation, BareRegulationAt(s, i).value.cite)
  {
    var sp := BareRegulationSpan(s, i);
    if sp.Some? {
      SpanShape(s, sp.value);
      BareRegulationRange(s[i..i + 5]);
    }
  }

  lemma MatchShape(pat: Pattern, s: string, i: nat)
    requires i <= |s|
    ensures MatchAt(pat, s, i).Some? ==> Shape(pat, MatchAt(pat, s, i).value.cite)
  {
    match pat
    case PrefixedStatute => PrefixedStatuteShape(s, i);
    case BareStatute => BareStatuteShape(s, i);
    case BareStatuteAsWritten => BareStatuteShape(s, i);
    case PrefixedRegulation => PrefixedRegulationShape(s, i);
    case BareRegulation => BareRegulationShape(s, i);
  }

  /** Every citation a scan yields has the shape of its pattern. */
  lemma {:induction false} FindAllShapes(pat: Pattern, s: string, i: nat)
    requires i <= |s|
    ensures forall c :: c in FindAll(pat, s, i) ==> Shape(pat, c)
    decreases |s| - i
  {
    if i < |s| {
      MatchShape(pat, s, i);
      match MatchAt(pat, s, i)
      case Some(m) => FindAllShapes(pat, s, m.end);
      case None => FindAllShapes(pat, s, i + 1);
    }
  }

  /** The Government Code list holds well-formed citations, and one that no prefixed match
      produced has a number in the FPPC statute ranges. */
  lemma ParsedStatuteShapes(query: string)
    ensures forall c :: c in GovCodeCitations(query) ==> StatuteShape(c)
    ensures forall c :: (c in GovCodeCitations(query) && c.raw !in Raws(FindAll(PrefixedStatute, query, 0)))
                        ==> FppcStatuteNumber(c.base)
  {
    var ps, bs := FindAll(PrefixedStatute, query, 0), FindAll(BareStatute, query, 0);
    FindAllShapes(PrefixedStatute, query, 0);
    FindAllShapes(BareStatute, query, 0);
    DedupRaws(ps + bs);
    forall c | c in GovCodeCitations(query)
      ensures StatuteShape(c) && (c.raw !in Raws(ps) ==> FppcStatuteNumber(c.base))
    {
      assert c in ps + bs;
      if c !in bs {
        assert c in ps;
      }
    }
  }

  /** The regulation list holds well-formed citations, and one that no prefixed match produced
      has a number in the FPPC regulation range. */
  lemma ParsedRegulationShapes(query: string)
    ensures forall c :: c in RegulationCitations(query) ==> RegulationShape(c)
    ensures forall c :: (c in RegulationCitations(query) && c.raw !in Raws(FindAll(PrefixedRegulation, query, 0)))
                        ==> FppcRegulationNumber(c.base)
  {
    var pr, br := FindAll(PrefixedRegulation, query, 0), FindAll(BareRegulation, query, 0);
    FindAllShapes(PrefixedRegulation, query, 0);
    FindAllShapes(BareRegulation, query, 0);
    DedupRaws(pr + br);
    forall c | c in RegulationCitations(query)
      ensures RegulationShape(c) && (c.raw !in Raws(pr) ==> FppcRegulationNumber(c.base))
    {
      assert c in pr + br;
      if c !in br {
        assert c in pr;
      }
    }
  }

  // ---------------------------------------------------------------------------
  // The bare statute pattern's trailing word boundary
  // ---------------------------------------------------------------------------

  /** The Government Code list the uncorrected parser builds, with the bare pattern as written. */
  function GovCodeCitationsAsWritten(query: string): seq<Citation> {
    Dedup(FindAll(PrefixedStatute, query, 0) + FindAll(BareStatuteAsWritten, query, 0))
  }

  /** The uncorrected list is de-duplicated the same way: distinct `raw`s, exactly those of its
      two passes, prefixed matches first. */
  lemma AsWrittenDeduplicated(query: string)
    ensures DistinctRaws(GovCodeCitationsAsWritten(query))
    ensures Raws(GovCodeCitationsAsWritten(query))
      == Raws(FindAll(PrefixedStatute, query, 0)) + Raws(FindAll(BareStatuteAsWritten, query, 0))
    ensures var pre, all := Dedup(FindAll(PrefixedStatute, query, 0)), GovCodeCitationsAsWritten(query);
      |pre| <= |all| && all[..|pre|] == pre
      && forall k :: |pre| <= k < |all| ==> all[k].raw !in Raws(FindAll(PrefixedStatute, query, 0))
  {
    var ps, bs := FindAll(PrefixedStatute, query, 0), FindAll(BareStatuteAsWritten, query, 0);
    DedupDistinct(ps + bs);
    DedupRaws(ps + bs);
    RawsAppend(ps, bs);
    EarlierPassFirst(ps, bs);
  }

  /** Positions where a pattern does not match are skipped by the scan. */
  lemma {:induction false} SkipNoMatch(pat: Pattern, s: string, i: nat, j: nat)
    requires i <= j <= |s|
    requires forall k :: i <= k < j ==> MatchAt(pat, s, k).None?
    ensures FindAll(pat, s, i) == FindAll(pat, s, j)
    decreases j - i
  {
    if i < j {
      FindAllSkip(pat, s, i);
      SkipNoMatch(pat, s, i + 1, j);
    }
  }

  /** The scan moves on by one where the pattern does not match. */
  lemma FindAllSkip(pat: Pattern, s: string, i: nat)
    requires i < |s| && MatchAt(pat, s, i).None?
    ensures FindAll(pat, s, i) == FindAll(pat, s, i + 1)
  {
  }

  /** No bare statute number starts at a non-digit or within three characters of the end. */
  lemma NoBareStatuteAt(s: string, i: nat)
    requires i <= |s|
    requires i + 3 >= |s| || (i < |s| && !IsDigit(s[i]))
    ensures MatchAt(BareStatute, s, i).None? && MatchAt(BareStatuteAsWritten, s, i).None?
  {
    if i + 5 <= |s| {
      assert s[i..i + 5][0] == s[i];
    }
  }

  /** A bare FPPC statute number followed by `(c)` at the end of the query, after text
      without digits: the number is found after `pre`, and nothing else can match. */
  lemma BareNumberBeforeSubsection(pre: string, d: string, c: char)
    requires forall i :: 0 <= i < |pre| ==> !IsDigit(pre[i])
    requires pre == [] || !IsWordChar(pre[|pre| - 1])
    requires FppcStatuteNumber(d) && IsAlnum(c)
    ensures var s, n := pre + d + ['(', c, ')'], |pre|;
      && |s| == n + |d| + 3
      && BareStatuteBaseLength(s, n) == |d| && BoundaryBefore(s, n)
      && s[n..n + |d|] == d && ParenSubAt(s, n + |d|) && s[n + |d|..|s|] == ['(', c, ')']
      && (forall k :: 0 <= k < n ==> MatchAt(BareStatute, s, k).None?)
      && (forall k :: 0 <= k < n ==> MatchAt(BareStatuteAsWritten, s, k).None?)
      && (forall k :: n + |d| <= k < |s| ==> MatchAt(BareStatute, s, k).None?)
      && (forall k :: n + |d| <= k < |s| ==> MatchAt(BareStatuteAsWritten, s, k).None?)
  {
    var s := pre + d + ['(', c, ')'];
    var n := |pre|;
    assert s[n..n + |d|] == d;
    BareStatuteAlternatives(s, n);
    if |d| == 4 {
      assert s[n] == '1';
    }
    assert s[n + |d|..n + |d| + 3] == ['(', c, ')'];
    forall k | 0 <= k < |s| && (k < n || n + |d| <= k)
      ensures MatchAt(BareStatute, s, k).None? && MatchAt(BareStatuteAsWritten, s, k).None?
    {
      if k < n {
        assert s[k] == pre[k];
      }
      NoBareStatuteAt(s, k);
    }
  }

  /** As written, the scan of `pre + d + "(c)"` yields the number without its subsection. */
  lemma BareSubsectionDroppedAsWritten(pre: string, d: string, c: char)
    requires forall i :: 0 <= i < |pre| ==> !IsDigit(pre[i])
    requires pre == [] || !IsWordChar(pre[|pre| - 1])
    requires FppcStatuteNumber(d) && IsAlnum(c)
    ensures FindAll(BareStatuteAsWritten, pre + d + ['(', c, ')'], 0) == [Citation(d, d, "")]
  {
    var s := pre + d + ['(', c, ')'];
    var n := |pre|;
    var m := Match(n + |d|, Citation(d, d, ""));
    assert FindAll(BareStatuteAsWritten, s, 0) == FindAll(BareStatuteAsWritten, s, n)
        && FindAll(BareStatuteAsWritten, s, n + |d|) == [] by {
      BareNumberBeforeSubsection(pre, d, c);
      SkipNoMatch(BareStatuteAsWritten, s, 0, n);
      SkipNoMatch(BareStatuteAsWritten, s, n + |d|, |s|);
    }
    assert MatchAt(BareStatuteAsWritten, s, n) == Some(m) by {
      BareNumberBeforeSubsection(pre, d, c);
      BareAsWrittenBeforeLastParen(s, n, d);
    }
    FindAllAt(BareStatuteAsWritten, s, n, m);
  }


  /** As written, a bare number whose subsection ends the text matches without it. */
  lemma BareAsWrittenBeforeLastParen(s: string, i: nat, d: string)
    requires i <= |s| && BareStatuteBaseLength(s, i) == |d| > 0 && BoundaryBefore(s, i)
    requires s[i..i + |d|] == d && i + |d| + 3 == |s| && s[i + |d|] == '('
    ensures MatchAt(BareStatuteAsWritten, s, i) == Some(Match(i + |d|, Citation(d, d, "")))
  {
    assert BoundaryAfter(s, i + |d|);
  }


  /** A match at `i` is reported, and the scan resumes where it ends. */
  lemma FindAllAt(pat: Pattern, s: string, i: nat, m: Match)
    requires i < |s| && MatchAt(pat, s, i) == Some(m)
    ensures m.end <= |s| && FindAll(pat, s, i) == [m.cite] + FindAll(pat, s, m.end)
  {
  }

  /** Corrected, the same scan yields the number with its subsection. */
  lemma BareSubsectionKept(pre: string, d: string, c: char)
    requires forall i :: 0 <= i < |pre| ==> !IsDigit(pre[i])
    requires pre == [] || !IsWordChar(pre[|pre| - 1])
    requires FppcStatuteNumber(d) && IsAlnum(c)
    ensures FindAll(BareStatute, pre + d + ['(', c, ')'], 0) == [Citation(d + ['(', c, ')'], d, ['(', c, ')'])]
  {
    var s := pre + d + ['(', c, ')'];
    var n := |pre|;
    var m := Match(|s|, Citation(d + ['(', c, ')'], d, ['(', c, ')']));
    assert FindAll(BareStatute, s, 0) == FindAll(BareStatute, s, n) by {
      BareNumberBeforeSubsection(pre, d, c);
      SkipNoMatch(BareStatute, s, 0, n);
    }
    assert MatchAt(BareStatute, s, n) == Some(m) by {
      BareNumberBeforeSubsection(pre, d, c);
      BareWithSubsection(s, n, d);
    }
    FindAllAt(BareStatute, s, n, m);
    assert FindAll(BareStatute, s, |s|) == [];
  }


  /** A bare number followed by a parenthesised subsection matches with it. */
  lemma BareWithSubsection(s: string, i: nat, d: string)
    requires i <= |s| && BareStatuteBaseLength(s, i) == |d| > 0 && BoundaryBefore(s, i)
    requires s[i..i + |d|] == d && ParenSubAt(s, i + |d|)
    ensures var p := i + |d|;
      MatchAt(BareStatute, s, i) == Some(Match(p + 3, Citation(d + s[p..p + 3], d, s[p..p + 3])))
  {
  }


  /** Counts the digits of a maximal digit run. */
  lemma {:induction false} DigitsFromRun(s: string, i: nat, n: nat)
    requires i + n <= |s|
    requires forall j :: i <= j < i + n ==> IsDigit(s[j])
    requires i + n == |s| || !IsDigit(s[i + n])
    ensures DigitsFrom(s, i) == n
    decreases n
  {
    if n > 0 {
      DigitsFromRun(s, i + 1, n - 1);
    }
  }

  /** A number `d` of at most five digits that is the whole digit run, followed by a
      parenthesised subsection, is one statute number with its subsection. */
  lemma StatuteNumberWithSubsection(s: string, q: nat, d: string)
    requires 3 <= |d| <= 5 && q + |d| <= |s| && DigitsFrom(s, q) == |d|
    requires s[q..q + |d|] == d && ParenSubAt(s, q + |d|)
    ensures var p := q + |d|;
      StatuteNumberAt(s, q) == Some(Match(p + 3, Citation(d + s[p..p + 3], d, s[p..p + 3])))
  {
  }

  /** "Section" followed by a statute number with a subsection matches as a whole, from the
      start to the end. */
  lemma PrefixedSubsectionMatch(kw: string, d: string, c: char)
    requires |kw| == 7 && Lower(kw) == "section"
    requires forall i :: 0 <= i < |kw| ==> IsLetter(kw[i])
    requires FppcStatuteNumber(d) && IsAlnum(c)
    ensures var q, sub := kw + [' '] + d + ['(', c, ')'], ['(', c, ')'];
      MatchAt(PrefixedStatute, q, 0) == Some(Match(|q|, Citation(d + sub, d, sub)))
  {
    var sub := ['(', c, ')'];
    var q := kw + [' '] + d + sub;
    SectionPrefix(kw, [' '] + d + sub);
    assert q == kw + ([' '] + d + sub);
    OneSpace(q, 7);
    NumberWithSubsectionAt(q, 8, d, c);
    assert q[8 + |d|..|q|] == sub;
  }

  /** Any capitalisation of "Section" at the start is a statute prefix ending after it. */
  lemma SectionPrefix(kw: string, rest: string)
    requires |kw| == 7 && Lower(kw) == "section"
    ensures StatutePrefixEnd(kw + rest, 0) == Some(7)
  {
    assert (kw + rest)[0..7] == kw;
  }

  /** A single space followed by a digit is a whitespace run of one. */
  lemma OneSpace(s: string, j: nat)
    requires j + 1 < |s| && s[j] == ' ' && IsDigit(s[j + 1])
    ensures SpaceRun(s, j) == 1
  {
    assert s[j + 1] !in PyWhitespace;
    assert SpaceRun(s, j + 1) == 0;
  }

  /** A statute number and a subsection, ending the text, make a number match to the end. */
  lemma NumberWithSubsectionAt(s: string, q: nat, d: string, c: char)
    requires FppcStatuteNumber(d) && IsAlnum(c)
    requires q + |d| + 3 == |s| && s[q..] == d + ['(', c, ')']
    ensures q + 1 < |s| && s[q] == d[0]
    ensures StatuteNumberAt(s, q) == Some(Match(|s|, Citation(d + ['(', c, ')'], d, ['(', c, ')'])))
  {
    var sub := ['(', c, ')'];
    forall j | q <= j < q + |d|
      ensures IsDigit(s[j])
    {
      assert s[j] == s[q..][j - q];
    }
    assert s[q + |d|] == s[q..][|d|];
    DigitsFromRun(s, q, |d|);
    assert s[q..q + |d|] == s[q..][..|d|];
    assert s[q + |d|..|s|] == s[q..][|d|..];
    assert s[q] == s[q..][0];
    StatuteNumberWithSubsection(s, q, d);
  }


  /** A keyword of letters and a space hold no digit and end in a non-word character. */
  lemma KeywordSpaceNoDigits(kw: string)
    requires forall i :: 0 <= i < |kw| ==> IsLetter(kw[i])
    ensures var pre := kw + [' ']; forall i :: 0 <= i < |pre| ==> !IsDigit(pre[i])
  {
    var pre := kw + [' '];
    forall i | 0 <= i < |pre| ensures !IsDigit(pre[i]) {
      if i < |kw| {
        assert pre[i] == kw[i];
      }
    }
  }

  /** `Section 87103(a)`, with any capitalisation of `Section`: the uncorrected parser returns
      the subsection citation and then a second, bare `87103`; the corrected parser returns
      the one citation. */
  lemma PrefixedSubsectionDuplicatedAsWritten(kw: string, d: string, c: char)
    requires |kw| == 7 && Lower(kw) == "section"
    requires forall i :: 0 <= i < |kw| ==> IsLetter(kw[i])
    requires FppcStatuteNumber(d) && IsAlnum(c)
    ensures var q, sub := kw + [' '] + d + ['(', c, ')'], ['(', c, ')'];
      GovCodeCitationsAsWritten(q) == [Citation(d + sub, d, sub), Citation(d, d, "")]
    ensures var q, sub := kw + [' '] + d + ['(', c, ')'], ['(', c, ')'];
      GovCodeCitations(q) == [Citation(d + sub, d, sub)]
  {
    var sub := ['(', c, ')'];
    var pre := kw + [' '];
    var q := pre + d + sub;
    var a, b := Citation(d + sub, d, sub), Citation(d, d, "");
    assert q == kw + [' '] + d + ['(', c, ')'];
    assert FindAll(PrefixedStatute, q, 0) == [a] by {
      PrefixedSubsectionMatch(kw, d, c);
      FindAllAt(PrefixedStatute, q, 0, Match(|q|, a));
      assert FindAll(PrefixedStatute, q, |q|) == [];
    }
    KeywordSpaceNoDigits(kw);
    assert FindAll(BareStatuteAsWritten, q, 0) == [b] by {
      BareSubsectionDroppedAsWritten(pre, d, c);
    }
    assert FindAll(BareStatute, q, 0) == [a] by {
      BareSubsectionKept(pre, d, c);
    }
    assert GovCodeCitationsAsWritten(q) == [a, b] by {
      assert a.raw != b.raw by {
        assert |a.raw| == |b.raw| + 3;
      }
      DedupPair(a, b);
      assert [a] + [b] == [a, b];
    }
    assert GovCodeCitations(q) == [a] by {
      DedupPair(a, a);
      assert [a] + [a] == [a, a];
    }
  }


  lemma DedupPair(a: Citation, b: Citation)
    ensures Dedup([a]) == [a]
    ensures Dedup([a, b]) == if a.raw == b.raw then [a] else [a, b]
  {
    assert [a][..0] == [];
    assert [a, b][..1] == [a];
    assert Raws([a]) == {a.raw};
  }

  /** No prefixed statute occurs in a number followed by a subsection. */
  lemma NoPrefixedInSubsection(d: string, c: char)
    requires FppcStatuteNumber(d)
    ensures FindAll(PrefixedStatute, d + ['(', c, ')'], 0) == []
  {
    var s := d + ['(', c, ')'];
    forall k | 0 <= k < |s| ensures MatchAt(PrefixedStatute, s, k).None? {
      if k < |d| {
        assert s[k] == d[k];
      }
      NoPrefixAmongDigits(s, k);
    }
    SkipNoMatch(PrefixedStatute, s, 0, |s|);
  }

  /** A query that is just an FPPC statute number with a subsection, such as `87103(a)`, loses
      the subsection in the uncorrected parser. */
  lemma SubsectionLostAsWritten(d: string, c: char)
    requires FppcStatuteNumber(d) && IsAlnum(c)
    ensures GovCodeCitationsAsWritten(d + ['(', c, ')']) == [Citation(d, d, "")]
  {
    var s := d + ['(', c, ')'];
    var b := Citation(d, d, "");
    assert FindAll(BareStatuteAsWritten, s, 0) == [b] by {
      BareSubsectionDroppedAsWritten([], d, c);
      assert [] + d + ['(', c, ')'] == s;
    }
    assert FindAll(PrefixedStatute, s, 0) == [] by {
      NoPrefixedInSubsection(d, c);
    }
    assert GovCodeCitationsAsWritten(s) == Dedup([b]) by {
      assert [] + [b] == [b];
    }
    DedupPair(b, b);
  }


  /** The corrected parser keeps the subsection of the same query. */
  lemma SubsectionKept(d: string, c: char)
    requires FppcStatuteNumber(d) && IsAlnum(c)
    ensures GovCodeCitations(d + ['(', c, ')']) == [Citation(d + ['(', c, ')'], d, ['(', c, ')'])]
  {
    var s := d + ['(', c, ')'];
    var a := Citation(s, d, ['(', c, ')']);
    assert FindAll(BareStatute, s, 0) == [a] by {
      BareSubsectionKept([], d, c);
      assert [] + d + ['(', c, ')'] == s;
    }
    assert FindAll(PrefixedStatute, s, 0) == [] by {
      NoPrefixedInSubsection(d, c);
    }
    assert GovCodeCitations(s) == Dedup([a]) by {
      assert [] + [a] == [a];
    }
    DedupPair(a, a);
  }


  /** A prefixed statute starts with a letter and takes at least three characters. */
  lemma NoPrefixAmongDigits(s: string, i: nat)
    requires i <= |s|
    requires i + 3 > |s| || !IsLetter(s[i])
    ensures MatchAt(PrefixedStatute, s, i).None?
  {
  }
}
